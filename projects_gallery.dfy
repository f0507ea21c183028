// The projects gallery: tone colours, the two-column card grid with its
// centred last card, card links, and the repeating hover marquee.
module ProjectsGallery {
  import opened Wrappers

  /** The tones a project can be given. */
  datatype Tone = Lavender | PastelBlue | Phthalo | Lime | PastelRed | White | Dark

  function ToneName(t: Tone): string {
    match t
    case Lavender => "lavender"
    case PastelBlue => "pastelBlue"
    case Phthalo => "phthalo"
    case Lime => "lime"
    case PastelRed => "pastelRed"
    case White => "white"
    case Dark => "dark"
  }

  datatype CardStyle = CardStyle(bg: string, text: string, border: string)

  const LightText := "white"
  const DarkText := "#0a0a0b"
  const LightBorder := "rgba(255,255,255,.10)"
  const InkBorder := "rgba(10,10,11,.12)"
  const RedBorder := "rgba(255,105,97,.12)"
  const DarkStyle := CardStyle("var(--card-dark)", LightText, LightBorder)

  /** The seven tone names the switch knows. */
  predicate KnownTone(tone: string) {
    tone in {"white", "dark", "lime", "lavender", "pastelBlue", "phthalo", "pastelRed"}
  }

  /**
   * `toneStyle`, over the tone as the string it is at run time, so that the
   * default branch is reachable. White text exactly for dark, phthalo and
   * unknown tones, near-black text otherwise; the light translucent border
   * goes with white text; unknown tones look like dark.
   */
  function ToneStyle(tone: string): (s: CardStyle)
    ensures s.text == LightText <==> tone == "dark" || tone == "phthalo" || !KnownTone(tone)
    ensures s.text != LightText ==> s.text == DarkText
    ensures s.border == LightBorder <==> s.text == LightText
    ensures tone == "dark" ==> s == DarkStyle
    ensures !KnownTone(tone) ==> s == DarkStyle
  {
    match tone
    case "white" => CardStyle("var(--card-white)", DarkText, InkBorder)
    case "dark" => DarkStyle
    case "lime" => CardStyle("var(--card-lime)", DarkText, InkBorder)
    case "lavender" => CardStyle("var(--card-lavender)", DarkText, InkBorder)
    case "pastelBlue" => CardStyle("var(--card-pastel-blue)", DarkText, InkBorder)
    case "phthalo" => CardStyle("var(--card-phthalo)", LightText, LightBorder)
    case "pastelRed" => CardStyle("var(--card-pastel-red)", DarkText, RedBorder)
    case _ => DarkStyle
  }

  /** Every declared tone is one the switch knows, and distinct tones get distinct backgrounds. */
  lemma TonesDistinct(t: Tone, u: Tone)
    ensures KnownTone(ToneName(t))
    ensures ToneStyle(ToneName(t)).bg == ToneStyle(ToneName(u)).bg <==> t == u
  {
  }

  /** The decorative icons' colour: light on white-text cards, dark otherwise. */
  function DecoColor(s: CardStyle): (c: string)
    ensures c == "rgba(255,255,255,0.18)" <==> s.text == LightText
    ensures c != "rgba(255,255,255,0.18)" ==> c == "rgba(0,0,0,0.22)"
  {
    if s.text == LightText then "rgba(255,255,255,0.18)" else "rgba(0,0,0,0.22)"
  }

  /** The index of the card that gets a full, centred row: the last one when the count is odd. */
  function OddLastIdx(n: nat): (k: int)
    ensures 0 <= k <==> n % 2 == 1
    ensures 0 <= k ==> k == n - 1
    ensures k < 0 ==> k == -1
  {
    if n % 2 == 1 then n - 1 else -1
  }

  /** The horizontal offset a card slides in from: left for even indices, right for odd. */
  function EntryX(i: nat): (x: int)
    ensures x == -40 <==> i % 2 == 0
    ensures x == 40 <==> i % 2 == 1
  {
    if i % 2 == 0 then -40 else 40
  }

  /** Neighbouring cards enter from opposite sides. */
  lemma NeighboursOpposite(i: nat)
    ensures EntryX(i + 1) == -EntryX(i)
  {
  }

  const ProjectsPrefix := "/projects/"

  /** The link covering a card. */
  function CardHref(slug: string): (h: string)
    ensures |h| == |ProjectsPrefix| + |slug|
    ensures h[..|ProjectsPrefix|] == ProjectsPrefix && h[|ProjectsPrefix|..] == slug
  {
    ProjectsPrefix + slug
  }

  /** The slug a project link names, if it is one. */
  function SlugOf(href: string): Option<string> {
    if ProjectsPrefix <= href then Some(href[|ProjectsPrefix|..]) else None
  }

  /** Links and slugs are in one-to-one correspondence. */
  lemma HrefRoundTrip(slug: string, href: string)
    ensures SlugOf(CardHref(slug)) == Some(slug)
    ensures SlugOf(href) == Some(slug) ==> CardHref(slug) == href
  {
    if SlugOf(href) == Some(slug) {
      assert href == href[..|ProjectsPrefix|] + href[|ProjectsPrefix|..];
    }
  }

  /** The part of a project record the grid reads. */
  datatype Project = Project(slug: string, tone: string)

  /** What the grid renders for one project. */
  datatype Card = Card(key: string, fullRow: bool, entryX: int, href: string, style: CardStyle, deco: string)

  /**
   * Card `i` of the grid: keyed and linked by its slug, full-row exactly when
   * it is the last of an odd count, sliding in from its side, styled by its
   * tone, with decorations matching its text colour.
   */
  function CardAt(ps: seq<Project>, i: nat): (c: Card)
    requires i < |ps|
    ensures c.key == ps[i].slug && SlugOf(c.href) == Some(ps[i].slug)
    ensures c.fullRow <==> |ps| % 2 == 1 && i == |ps| - 1
    ensures c.entryX == EntryX(i)
    ensures c.style == ToneStyle(ps[i].tone) && c.deco == DecoColor(c.style)
  {
    HrefRoundTrip(ps[i].slug, CardHref(ps[i].slug));
    var sty := ToneStyle(ps[i].tone);
    Card(ps[i].slug, i == OddLastIdx(|ps|), EntryX(i), CardHref(ps[i].slug), sty, DecoColor(sty))
  }

  /** `projects.map(...)` over the grid: one card per project, in order. */
  function Cards(ps: seq<Project>): (cs: seq<Card>)
    ensures |cs| == |ps|
    ensures forall i :: 0 <= i < |cs| ==> cs[i].key == ps[i].slug && SlugOf(cs[i].href) == Some(ps[i].slug)
    ensures forall i :: 0 <= i < |cs| ==> (cs[i].fullRow <==> |ps| % 2 == 1 && i == |ps| - 1)
    ensures forall i :: 0 <= i < |cs| ==>
      cs[i].entryX == EntryX(i) && cs[i].style == ToneStyle(ps[i].tone) && cs[i].deco == DecoColor(cs[i].style)
  {
    seq(|ps|, i requires 0 <= i < |ps| => CardAt(ps, i))
  }

  /** How many cards take a full row. */
  function FullRowCount(cs: seq<Card>): nat {
    if cs == [] then 0 else (if cs[0].fullRow then 1 else 0) + FullRowCount(cs[1..])
  }

  /** A run of cards in which only position `k` is marked has one mark if `k` is inside it, none otherwise. */
  lemma {:induction false} CountMarked(cs: seq<Card>, k: int)
    requires forall i :: 0 <= i < |cs| ==> (cs[i].fullRow <==> i == k)
    ensures FullRowCount(cs) == if 0 <= k < |cs| then 1 else 0
  {
    if cs != [] {
      assert forall i :: 0 <= i < |cs| - 1 ==> cs[1..][i] == cs[i + 1];
      CountMarked(cs[1..], k - 1);
    }
  }

  /** At most one card, the last, takes a full row, and only when the count is odd. */
  lemma OneFullRowWhenOdd(ps: seq<Project>)
    ensures FullRowCount(Cards(ps)) == |ps| % 2
  {
    var cs := Cards(ps);
    CountMarked(cs, OddLastIdx(|ps|));
  }

  /** One marquee span: the text followed by a space, two no-break spaces, a bar and one more. */
  datatype Span = Span(key: string, content: string)

  const Separator := " \U{00A0}\U{00A0}|\U{00A0}"
  const CopyCount := 2
  const SpansPerCopy := 6

  function Digit(d: nat): char
    requires d < 10
  {
    "0123456789"[d]
  }

  /** `PillMarquee`: two copies of the row, six spans each, keyed `copy-i`. */
  function PillMarquee(text: string): (copies: seq<seq<Span>>)
    ensures |copies| == CopyCount
    ensures forall c :: 0 <= c < |copies| ==> |copies[c]| == SpansPerCopy
    ensures forall c, i :: 0 <= c < |copies| && 0 <= i < |copies[c]| ==>
      copies[c][i] == Span([Digit(c), '-', Digit(i)], text + Separator)
  {
    seq(CopyCount, c requires 0 <= c < CopyCount =>
      seq(SpansPerCopy, i requires 0 <= i < SpansPerCopy => Span([Digit(c), '-', Digit(i)], text + Separator)))
  }

  function Flatten(copies: seq<seq<Span>>): seq<Span> {
    if copies == [] then [] else copies[0] + Flatten(copies[1..])
  }

  /** How many spans show `content`. */
  function Occurrences(spans: seq<Span>, content: string): nat {
    if spans == [] then 0 else (if spans[0].content == content then 1 else 0) + Occurrences(spans[1..], content)
  }

  lemma {:induction false} OccurrencesAppend(a: seq<Span>, b: seq<Span>, content: string)
    ensures Occurrences(a + b, content) == Occurrences(a, content) + Occurrences(b, content)
  {
    if a == [] {
      assert a + b == b;
    } else {
      assert (a + b)[1..] == a[1..] + b;
      OccurrencesAppend(a[1..], b, content);
    }
  }

  lemma {:induction false} OccurrencesAll(spans: seq<Span>, content: string)
    requires forall i :: 0 <= i < |spans| ==> spans[i].content == content
    ensures Occurrences(spans, content) == |spans|
  {
    if spans != [] {
      OccurrencesAll(spans[1..], content);
    }
  }

  lemma FlattenTwo(copies: seq<seq<Span>>)
    requires |copies| == 2
    ensures Flatten(copies) == copies[0] + copies[1]
  {
    assert copies[1..][1..] == [];
    assert Flatten(copies[1..]) == copies[1] + [];
  }

  /** Each span's key spells its copy and position. */
  lemma MarqueeKeys(text: string)
    ensures var all := Flatten(PillMarquee(text));
      |all| == CopyCount * SpansPerCopy &&
      forall j :: 0 <= j < |all| ==> all[j].key == [Digit(j / SpansPerCopy), '-', Digit(j % SpansPerCopy)]
  {
    var copies := PillMarquee(text);
    FlattenTwo(copies);
  }

  /** The marquee shows its text twelve times, under twelve distinct keys. */
  lemma TwelveRepetitions(text: string)
    ensures Occurrences(Flatten(PillMarquee(text)), text + Separator) == CopyCount * SpansPerCopy
    ensures var all := Flatten(PillMarquee(text));
      forall j, k :: 0 <= j < k < |all| ==> all[j].key != all[k].key
  {
    var copies := PillMarquee(text);
    FlattenTwo(copies);
    OccurrencesAll(copies[0], text + Separator);
    OccurrencesAll(copies[1], text + Separator);
    OccurrencesAppend(copies[0], copies[1], text + Separator);
    MarqueeKeys(text);
    var all := Flatten(copies);
    forall j, k | 0 <= j < k < |all| ensures all[j].key != all[k].key {
      PositionsDiffer(j, k);
      if j / SpansPerCopy != k / SpansPerCopy {
        DigitsDiffer(j / SpansPerCopy, k / SpansPerCopy);
        assert all[j].key[0] != all[k].key[0];
      } else {
        DigitsDiffer(j % SpansPerCopy, k % SpansPerCopy);
        assert all[j].key[2] != all[k].key[2];
      }
    }
  }

  /** Two distinct positions differ in their copy or in their place within the copy. */
  lemma PositionsDiffer(j: nat, k: nat)
    requires j != k
    ensures j / SpansPerCopy != k / SpansPerCopy || j % SpansPerCopy != k % SpansPerCopy
  {
    assert j == SpansPerCopy * (j / SpansPerCopy) + j % SpansPerCopy;
    assert k == SpansPerCopy * (k / SpansPerCopy) + k % SpansPerCopy;
  }

  lemma DigitsDiffer(d: nat, e: nat)
    requires d < 10 && e < 10 && d != e
    ensures Digit(d) != Digit(e)
  {
  }
}
