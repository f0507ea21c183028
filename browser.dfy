/**
 * The two browser facilities the components lean on: `String.prototype.trim`
 * and `CSSStyleDeclaration.getPropertyValue` on the computed style of the
 * document element.
 */
module Browser {

  /**
   * The characters `trim` strips: ECMAScript's WhiteSpace (tab, vertical tab,
   * form feed, space, no-break space, the byte-order mark and the Unicode
   * space separators) and its LineTerminators (line feed, carriage return,
   * line and paragraph separator).
   */
  predicate IsSpace(c: char) {
    || c == '\t' || c == '\n' || c == '\U{0B}' || c == '\U{0C}' || c == '\r'
    || c == ' ' || c == '\U{A0}' || c == '\U{1680}'
    || ('\U{2000}' <= c <= '\U{200A}')
    || c == '\U{2028}' || c == '\U{2029}' || c == '\U{202F}' || c == '\U{205F}'
    || c == '\U{3000}' || c == '\U{FEFF}'
  }

  /** Every character of `s` is one `trim` strips. */
  predicate AllSpace(s: string) {
    s == [] || (IsSpace(s[0]) && AllSpace(s[1..]))
  }

  /** A concatenation is all space exactly when both of its parts are. */
  lemma {:induction false} AllSpaceAppend(a: string, b: string)
    ensures AllSpace(a + b) <==> AllSpace(a) && AllSpace(b)
  {
    if a == [] {
      assert a + b == b;
    } else {
      assert (a + b)[0] == a[0];
      assert (a + b)[1..] == a[1..] + b;
      AllSpaceAppend(a[1..], b);
    }
  }

  lemma {:induction false} AllSpaceSuffix(s: string, k: nat)
    requires AllSpace(s) && k <= |s|
    ensures AllSpace(s[k..])
  {
    if k > 0 {
      assert s[k..] == s[1..][k - 1..];
      AllSpaceSuffix(s[1..], k - 1);
    }
  }

  /** `s` neither starts nor ends with a character `trim` would strip. */
  predicate Trimmed(s: string) {
    s != [] ==> !IsSpace(s[0]) && !IsSpace(s[|s| - 1])
  }

  /** Drops the leading spaces: the result is a suffix of `s`, and what was dropped is all space. */
  function TrimStart(s: string): (r: string)
    ensures |r| <= |s| && r == s[|s| - |r|..]
    ensures AllSpace(s[..|s| - |r|])
    ensures r != [] ==> !IsSpace(r[0])
  {
    if s != [] && IsSpace(s[0]) then
      var r := TrimStart(s[1..]);
      assert s[..|s| - |r|] == [s[0]] + s[1..][..|s| - 1 - |r|];
      assert s[1..][|s| - 1 - |r|..] == s[|s| - |r|..];
      AllSpaceAppend([s[0]], s[1..][..|s| - 1 - |r|]);
      r
    else
      assert s[..0] == [];
      s
  }

  /** Drops the trailing spaces: the result is a prefix of `s`, and what was dropped is all space. */
  function TrimEnd(s: string): (r: string)
    ensures |r| <= |s| && r == s[..|r|]
    ensures AllSpace(s[|r|..])
    ensures r != [] ==> !IsSpace(r[|r| - 1])
  {
    if s != [] && IsSpace(s[|s| - 1]) then
      var r := TrimEnd(s[..|s| - 1]);
      assert s[|r|..] == s[..|s| - 1][|r|..] + [s[|s| - 1]];
      assert s[..|s| - 1][..|r|] == s[..|r|];
      assert AllSpace([s[|s| - 1]]) by { assert [s[|s| - 1]][1..] == []; }
      AllSpaceAppend(s[..|s| - 1][|r|..], [s[|s| - 1]]);
      r
    else
      assert s[|s|..] == [];
      s
  }

  /** `String.prototype.trim`. */
  function Trim(s: string): (r: string)
    ensures Trimmed(r)
    ensures r == [] <==> AllSpace(s)
    ensures |r| <= |s|
  {
    TrimEmptyOnlyIfBlank(s);
    TrimEmptyIfBlank(s);
    TrimEnd(TrimStart(s))
  }

  /** If nothing survives trimming, everything was space. */
  lemma {:induction false} TrimEmptyOnlyIfBlank(s: string)
    ensures TrimEnd(TrimStart(s)) == [] ==> AllSpace(s)
  {
    var t := TrimStart(s);
    if TrimEnd(t) == [] {
      assert s == s[..|s| - |t|] + t;
      assert t == t[0..];
      AllSpaceAppend(s[..|s| - |t|], t);
    }
  }

  /** A blank string trims to nothing, and what survives starts and ends with non-space. */
  lemma {:induction false} TrimEmptyIfBlank(s: string)
    ensures AllSpace(s) ==> TrimEnd(TrimStart(s)) == []
    ensures Trimmed(TrimEnd(TrimStart(s)))
  {
    var t := TrimStart(s);
    var r := TrimEnd(t);
    if AllSpace(s) {
      AllSpaceSuffix(s, |s| - |t|);
      assert s[|s| - |t|..] == t;
    }
    if r != [] {
      assert r[0] == t[0];
    }
  }

  /** Trimming leaves a string alone exactly when it is already trimmed. */
  lemma {:induction false} TrimIdentity(s: string)
    ensures Trim(s) == s <==> Trimmed(s)
  {
    if Trimmed(s) {
      if s != [] {
        assert TrimStart(s) == s;
        assert TrimEnd(s) == s;
      }
    }
  }

  /** Every character of a slice occurs in the whole. */
  lemma SliceChars(s: string, i: nat, j: nat)
    requires i <= j <= |s|
    ensures forall c :: c in s[i..j] ==> c in s
  {
    forall c | c in s[i..j] ensures c in s {
      var n :| 0 <= n < j - i && s[i..j][n] == c;
      assert s[i + n] == c;
    }
  }

  /** Trimming only removes characters: every character of the result occurs in the input. */
  lemma TrimKeepsChars(s: string)
    ensures forall c :: c in Trim(s) ==> c in s
  {
    var t := TrimStart(s);
    SliceChars(s, |s| - |t|, |s|);
    SliceChars(t, 0, |TrimEnd(t)|);
  }

  /** `trim` is idempotent. */
  lemma TrimIdempotent(s: string)
    ensures Trim(Trim(s)) == Trim(s)
  {
    TrimIdentity(Trim(s));
  }

  /**
   * The computed style of the document element, as the custom properties it
   * declares. `getPropertyValue` answers the empty string for a property the
   * style does not declare.
   */
  type ComputedStyle = map<string, string>

  function PropertyValue(style: ComputedStyle, name: string): (v: string)
    ensures name !in style ==> v == ""
  {
    if name in style then style[name] else ""
  }
}
