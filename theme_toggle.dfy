/**
 * The theme-ripple controller of the floating theme button.
 *
 * A click paints a `cover` ripple in the colour of the target theme; a first
 * timer (t1) then writes the target theme to the theme store and paints a
 * `reveal` ripple; a second timer (t2) removes both ripples by id. Timers are
 * discrete events here: the browser's pending timeouts are a map from handle
 * to the callback they will run, and firing one is an explicit step.
 */
module ThemeToggle {
  import opened Wrappers

  datatype ThemeName = Dark | Light

  datatype Phase = Cover | Reveal

  /** One overlay: `cx`/`cy` is the anchor its circle grows from. */
  datatype Ripple = Ripple(id: nat, phase: Phase, color: string, cx: string, cy: string)

  /** The two placeholder-or-preview dots the button can show. */
  datatype DotColor = Black | White

  /** What a pending timeout will run when it fires. */
  datatype Timer =
    | FlipAndReveal(idA: nat, target: ThemeName, color: string)  // t1 of a click
    | Cleanup(idA: nat, idB: nat)                                 // t2 of a click

  /** The value `setTheme` stores for a theme. */
  function Name(t: ThemeName): string {
    match t
    case Dark => "dark"
    case Light => "light"
  }

  /** PAGE_COLOR: the page background of each theme, black for dark and white for light. */
  function PageColor(t: ThemeName): (c: string)
    ensures c == "#000000" <==> t == Dark
    ensures c == "#ffffff" <==> t == Light
  {
    match t
    case Dark => "#000000"
    case Light => "#ffffff"
  }

  /** Ripples grow from the top-right corner, like a peel. */
  const OriginX: string := "100%"
  const OriginY: string := "0%"

  function Opposite(t: ThemeName): (r: ThemeName)
    ensures r != t
  {
    match t
    case Dark => Light
    case Light => Dark
  }

  /**
   * `current`: "dark" until mounted, whatever the store says; afterwards
   * "light" exactly when `resolvedTheme ?? theme` is "light".
   */
  function Current(mounted: bool, resolvedTheme: Option<string>, theme: Option<string>): (c: ThemeName)
    ensures !mounted ==> c == Dark
    ensures mounted && resolvedTheme.Some? ==> (c == Light <==> resolvedTheme.value == "light")
    ensures mounted && resolvedTheme.None? ==> (c == Light <==> theme == Some("light"))
  {
    if !mounted then Dark
    else if resolvedTheme.OrElse(theme) == Some("light") then Light
    else Dark
  }

  /** `next`: the theme a click switches to. */
  function Next(current: ThemeName): (n: ThemeName)
    ensures n != current
    ensures Opposite(n) == current
  {
    Opposite(current)
  }

  /**
   * The button's aria-label: the neutral label exactly before mount, and
   * afterwards a label whose middle names the target.
   */
  function ButtonLabel(mounted: bool, next: ThemeName): (l: string)
    ensures l == "Switch theme" <==> !mounted
    ensures mounted ==> |l| >= 16 && l[..10] == "Switch to " && l[10..|l| - 6] == Name(next) && l[|l| - 6..] == " theme"
  {
    if mounted then
      var l := "Switch to " + Name(next) + " theme";
      assert l[..10] == "Switch to " && l[10..|l| - 6] == Name(next) && l[|l| - 6..] == " theme";
      l
    else "Switch theme"
  }

  /** The dot inside the button: black previews dark, white previews light or is the placeholder. */
  function ButtonDot(mounted: bool, next: ThemeName): (d: DotColor)
    ensures d == Black <==> mounted && next == Dark
  {
    if mounted then (if next == Dark then Black else White) else White
  }

  /**
   * After mount the label names the target: distinct targets give distinct
   * labels, and none of them is the neutral pre-mount label.
   */
  lemma {:induction false} LabelNamesTarget(a: ThemeName, b: ThemeName)
    ensures ButtonLabel(true, a) == ButtonLabel(true, b) <==> a == b
    ensures ButtonLabel(true, a) != ButtonLabel(false, b)
  {
    assert |ButtonLabel(true, Dark)| == 20;
    assert |ButtonLabel(true, Light)| == 21;
    assert |ButtonLabel(false, b)| == 12;
  }

  /**
   * Preview correctness: once mounted, a stored "dark" makes the button offer
   * light (white dot) and any stored "light" makes it offer dark (black dot);
   * before mount it shows the placeholder whatever is stored.
   */
  lemma {:induction false} PreviewsOpposite(mounted: bool, stored: ThemeName)
    ensures var next := Next(Current(mounted, Some(Name(stored)), Some(Name(stored))));
      && (mounted ==> next == Opposite(stored))
      && (mounted ==> ButtonLabel(mounted, next) == "Switch to " + Name(Opposite(stored)) + " theme")
      && (mounted ==> (ButtonDot(mounted, next) == Black <==> stored == Light))
      && (!mounted ==> ButtonDot(mounted, next) == White && ButtonLabel(mounted, next) == "Switch theme")
  {
    if mounted {
      match stored
      case Dark => assert Name(stored) != "light";
      case Light =>
    }
  }

  /** The ids of a list of ripples. */
  function Ids(rs: seq<Ripple>): set<nat> {
    if rs == [] then {} else {rs[0].id} + Ids(rs[1..])
  }

  /**
   * The ids along `rs` strictly increase, all above `lo` and at most `hi`
   * (so they are also distinct).
   */
  predicate Ordered(rs: seq<Ripple>, lo: int, hi: int) {
    rs == [] || (lo < rs[0].id <= hi && Ordered(rs[1..], rs[0].id, hi))
  }

  /** `rs.filter(r => r.id !== a && r.id !== b)`. */
  function Without(rs: seq<Ripple>, a: nat, b: nat): (r: seq<Ripple>)
    ensures |r| <= |rs|
    ensures forall x :: x in r <==> x in rs && x.id != a && x.id != b
  {
    if rs == [] then []
    else if rs[0].id != a && rs[0].id != b then [rs[0]] + Without(rs[1..], a, b)
    else Without(rs[1..], a, b)
  }

  /** Every id of an ordered list lies in its bounds. */
  lemma {:induction false} OrderedBounds(rs: seq<Ripple>, lo: int, hi: int)
    requires Ordered(rs, lo, hi)
    ensures forall x :: x in Ids(rs) ==> lo < x <= hi
  {
    if rs != [] {
      OrderedBounds(rs[1..], rs[0].id, hi);
    }
  }

  /** The bounds of an ordered list may be widened. */
  lemma {:induction false} OrderedWiden(rs: seq<Ripple>, lo: int, hi: int, lo': int, hi': int)
    requires Ordered(rs, lo, hi) && lo' <= lo && hi <= hi'
    ensures Ordered(rs, lo', hi')
  {
    if rs != [] {
      OrderedWiden(rs[1..], rs[0].id, hi, rs[0].id, hi');
    }
  }

  /** Appending a ripple with the next id keeps the list ordered. */
  lemma {:induction false} OrderedAppend(rs: seq<Ripple>, lo: int, hi: int, r: Ripple)
    requires Ordered(rs, lo, hi) && lo <= hi && r.id == hi + 1
    ensures Ordered(rs + [r], lo, hi + 1)
  {
    if rs == [] {
      assert rs + [r] == [r];
    } else {
      assert (rs + [r])[1..] == rs[1..] + [r];
      OrderedBounds(rs, lo, hi);
      OrderedAppend(rs[1..], rs[0].id, hi, r);
    }
  }

  /** Filtering keeps the survivors in their order. */
  lemma {:induction false} WithoutOrdered(rs: seq<Ripple>, lo: int, hi: int, a: nat, b: nat)
    requires Ordered(rs, lo, hi)
    ensures Ordered(Without(rs, a, b), lo, hi)
  {
    if rs != [] {
      WithoutOrdered(rs[1..], rs[0].id, hi, a, b);
      if !(rs[0].id != a && rs[0].id != b) {
        OrderedWiden(Without(rs[1..], a, b), rs[0].id, hi, lo, hi);
      }
    }
  }

  /** Filtering removes exactly the ids `a` and `b` from the id set. */
  lemma {:induction false} WithoutIds(rs: seq<Ripple>, a: nat, b: nat)
    ensures Ids(Without(rs, a, b)) == Ids(rs) - {a, b}
  {
    if rs != [] {
      WithoutIds(rs[1..], a, b);
    }
  }

  /** How many of the ids `a`, `b` occur in `rs`. */
  function Hits(rs: seq<Ripple>, a: nat, b: nat): nat {
    (if a in Ids(rs) then 1 else 0) + (if b != a && b in Ids(rs) then 1 else 0)
  }

  /** On a list with distinct ids, filtering drops one ripple per id found. */
  lemma {:induction false} WithoutLength(rs: seq<Ripple>, lo: int, hi: int, a: nat, b: nat)
    requires Ordered(rs, lo, hi)
    ensures |Without(rs, a, b)| == |rs| - Hits(rs, a, b)
  {
    if rs != [] {
      OrderedBounds(rs[1..], rs[0].id, hi);
      WithoutLength(rs[1..], rs[0].id, hi, a, b);
    }
  }

  /** Appending a ripple adds exactly its id. */
  lemma {:induction false} IdsAppend(rs: seq<Ripple>, r: Ripple)
    ensures Ids(rs + [r]) == Ids(rs) + {r.id}
  {
    if rs == [] {
      assert rs + [r] == [r];
    } else {
      assert (rs + [r])[1..] == rs[1..] + [r];
      IdsAppend(rs[1..], r);
    }
  }

  /** The ids a pending timer refers to. */
  function TimerIds(t: Timer): set<nat> {
    match t
    case FlipAndReveal(a, _, _) => {a}
    case Cleanup(a, b) => {a, b}
  }

  /**
   * A pending timer is consistent with the ripples on screen: the ripples it
   * names are present, its ids have been drawn, a t1 carries the colour of
   * its target and a t2's `reveal` id is later than its `cover` id.
   */
  predicate TimerValid(t: Timer, rs: seq<Ripple>, lastId: nat) {
    match t
    case FlipAndReveal(a, target, color) =>
      a <= lastId && a in Ids(rs) && color == PageColor(target)
    case Cleanup(a, b) =>
      a < b <= lastId && a in Ids(rs) && b in Ids(rs)
  }

  /** Ripples on screen are in id order and carry ids already drawn. */
  predicate RipplesOk(rs: seq<Ripple>, lastId: nat) {
    Ordered(rs, 0, lastId)
  }

  /** Every pending timeout was recorded in `timers`, under a handle already given out. */
  predicate HandlesOk(scheduled: map<nat, Timer>, timers: seq<nat>, lastHandle: nat) {
    forall h :: h in scheduled ==> h in timers && 1 <= h <= lastHandle
  }

  predicate PendingOk(scheduled: map<nat, Timer>, rs: seq<Ripple>, lastId: nat) {
    forall h :: h in scheduled ==> TimerValid(scheduled[h], rs, lastId)
  }

  /** No two pending timeouts speak of the same ripple. */
  predicate PendingDisjoint(scheduled: map<nat, Timer>) {
    forall h1, h2 :: h1 in scheduled && h2 in scheduled && h1 != h2 ==>
      TimerIds(scheduled[h1]) !! TimerIds(scheduled[h2])
  }

  /** The invariant of the controller, on the values of its fields. */
  predicate Consistent(rs: seq<Ripple>, lastId: nat, timers: seq<nat>, scheduled: map<nat, Timer>, lastHandle: nat) {
    && RipplesOk(rs, lastId)
    && HandlesOk(scheduled, timers, lastHandle)
    && PendingOk(scheduled, rs, lastId)
    && PendingDisjoint(scheduled)
  }

  /** A pending timer stays valid while ripples are only added and ids only drawn. */
  lemma {:induction false} TimerValidGrows(t: Timer, rs: seq<Ripple>, rs': seq<Ripple>, l: nat, l': nat)
    requires TimerValid(t, rs, l) && Ids(rs) <= Ids(rs') && l <= l'
    ensures TimerValid(t, rs', l')
  {
  }

  /** Appending a ripple whose id is the next one keeps the ripples in order. */
  lemma {:induction false} AppendFresh(rs: seq<Ripple>, lastId: nat, r: Ripple)
    requires RipplesOk(rs, lastId) && r.id == lastId + 1
    ensures RipplesOk(rs + [r], lastId + 1)
    ensures Ids(rs + [r]) == Ids(rs) + {r.id}
  {
    OrderedAppend(rs, 0, lastId, r);
    IdsAppend(rs, r);
  }

  /** Every pending timer stays valid when a ripple is appended and an id drawn. */
  lemma {:induction false} PendingGrows(scheduled: map<nat, Timer>, rs: seq<Ripple>, rs': seq<Ripple>, lastId: nat)
    requires PendingOk(scheduled, rs, lastId) && Ids(rs) <= Ids(rs')
    ensures PendingOk(scheduled, rs', lastId + 1)
  {
    forall h | h in scheduled ensures TimerValid(scheduled[h], rs', lastId + 1) {
      TimerValidGrows(scheduled[h], rs, rs', lastId, lastId + 1);
    }
  }

  /** No pending timer names an id that has not been drawn yet. */
  lemma {:induction false} PendingBelow(scheduled: map<nat, Timer>, rs: seq<Ripple>, lastId: nat)
    requires PendingOk(scheduled, rs, lastId)
    ensures forall h :: h in scheduled ==> lastId + 1 !in TimerIds(scheduled[h])
  {
    forall h | h in scheduled ensures lastId + 1 !in TimerIds(scheduled[h]) {
      assert TimerValid(scheduled[h], rs, lastId);
    }
  }

  /** Scheduling a timer that shares no id with the pending ones keeps them disjoint. */
  lemma {:induction false} DisjointAdd(scheduled: map<nat, Timer>, h: nat, t: Timer)
    requires PendingDisjoint(scheduled) && h !in scheduled
    requires forall g :: g in scheduled ==> TimerIds(scheduled[g]) !! TimerIds(t)
    ensures PendingDisjoint(scheduled[h := t])
  {
  }

  /** A timeout scheduled under the next handle and recorded in `timers` keeps the handles in order. */
  lemma {:induction false} HandlesAdd(scheduled: map<nat, Timer>, timers: seq<nat>, lastHandle: nat, t: Timer)
    requires HandlesOk(scheduled, timers, lastHandle)
    ensures lastHandle + 1 !in scheduled
    ensures HandlesOk(scheduled[lastHandle + 1 := t], timers + [lastHandle + 1], lastHandle + 1)
  {
  }

  /** Scheduling a valid timer keeps every pending timer valid. */
  lemma {:induction false} PendingAdd(scheduled: map<nat, Timer>, rs: seq<Ripple>, lastId: nat, h: nat, t: Timer)
    requires PendingOk(scheduled, rs, lastId) && TimerValid(t, rs, lastId)
    ensures PendingOk(scheduled[h := t], rs, lastId)
  {
  }

  /** Dropping a pending timer keeps the rest valid and disjoint. */
  lemma {:induction false} PendingRemove(scheduled: map<nat, Timer>, rs: seq<Ripple>, lastId: nat, h: nat)
    requires PendingOk(scheduled, rs, lastId) && PendingDisjoint(scheduled)
    ensures PendingOk(scheduled - {h}, rs, lastId) && PendingDisjoint(scheduled - {h})
  {
  }

  /**
   * A click keeps the invariant: its cover ripple and its t1 carry the next
   * id, which no ripple and no pending timer holds yet.
   */
  lemma {:induction false} ClickKeeps(rs: seq<Ripple>, lastId: nat, timers: seq<nat>, scheduled: map<nat, Timer>, lastHandle: nat, next: ThemeName,
                                      rs': seq<Ripple>, timers': seq<nat>, scheduled': map<nat, Timer>)
    requires Consistent(rs, lastId, timers, scheduled, lastHandle)
    requires rs' == rs + [Ripple(lastId + 1, Cover, PageColor(next), OriginX, OriginY)]
    requires scheduled' == scheduled[lastHandle + 1 := FlipAndReveal(lastId + 1, next, PageColor(next))]
    requires timers' == timers + [lastHandle + 1]
    ensures Consistent(rs', lastId + 1, timers', scheduled', lastHandle + 1)
    ensures Ids(rs') == Ids(rs) + {lastId + 1}
  {
    var n, c := lastId + 1, PageColor(next);
    var t := FlipAndReveal(n, next, c);
    AppendFresh(rs, lastId, Ripple(n, Cover, c, OriginX, OriginY));
    ClickPending(scheduled, rs, rs', lastId, lastHandle + 1, t);
    HandlesAdd(scheduled, timers, lastHandle, t);
  }

  /** The pending-timer half of `ClickKeeps`. */
  lemma {:induction false} ClickPending(scheduled: map<nat, Timer>, rs: seq<Ripple>, rs': seq<Ripple>, lastId: nat, hNew: nat, t: Timer)
    requires PendingOk(scheduled, rs, lastId) && PendingDisjoint(scheduled) && hNew !in scheduled
    requires Ids(rs') == Ids(rs) + {lastId + 1}
    requires TimerValid(t, rs', lastId + 1) && TimerIds(t) == {lastId + 1}
    ensures PendingOk(scheduled[hNew := t], rs', lastId + 1) && PendingDisjoint(scheduled[hNew := t])
  {
    PendingGrows(scheduled, rs, rs', lastId);
    PendingAdd(scheduled, rs', lastId + 1, hNew, t);
    PendingBelow(scheduled, rs, lastId);
    DisjointAdd(scheduled, hNew, t);
  }

  /**
   * A t1 keeps the invariant: it leaves the pending set, and the t2 that
   * replaces it names its `cover` id and a fresh `reveal` id.
   */
  lemma {:induction false} FlipKeeps(rs: seq<Ripple>, lastId: nat, timers: seq<nat>, scheduled: map<nat, Timer>, lastHandle: nat, h: nat,
                                     rs': seq<Ripple>, timers': seq<nat>, scheduled': map<nat, Timer>)
    requires Consistent(rs, lastId, timers, scheduled, lastHandle)
    requires h in scheduled && scheduled[h].FlipAndReveal?
    requires rs' == rs + [Ripple(lastId + 1, Reveal, scheduled[h].color, OriginX, OriginY)]
    requires scheduled' == (scheduled - {h})[lastHandle + 1 := Cleanup(scheduled[h].idA, lastId + 1)]
    requires timers' == timers + [lastHandle + 1]
    ensures Consistent(rs', lastId + 1, timers', scheduled', lastHandle + 1)
    ensures Ids(rs') == Ids(rs) + {lastId + 1}
  {
    var t, n := scheduled[h], lastId + 1;
    AppendFresh(rs, lastId, Ripple(n, Reveal, t.color, OriginX, OriginY));
    FlipPending(scheduled, rs, rs', lastId, h, lastHandle + 1);
    HandlesAdd(scheduled - {h}, timers, lastHandle, Cleanup(t.idA, n));
  }

  /** The pending-timer half of `FlipKeeps`. */
  lemma {:induction false} FlipPending(scheduled: map<nat, Timer>, rs: seq<Ripple>, rs': seq<Ripple>, lastId: nat, h: nat, hNew: nat)
    requires PendingOk(scheduled, rs, lastId) && PendingDisjoint(scheduled)
    requires h in scheduled && scheduled[h].FlipAndReveal? && hNew !in scheduled
    requires Ids(rs') == Ids(rs) + {lastId + 1}
    ensures var s' := (scheduled - {h})[hNew := Cleanup(scheduled[h].idA, lastId + 1)];
      PendingOk(s', rs', lastId + 1) && PendingDisjoint(s')
  {
    var t, n := scheduled[h], lastId + 1;
    var rest := scheduled - {h};
    var t2 := Cleanup(t.idA, n);
    assert TimerValid(t, rs, lastId);
    PendingRemove(scheduled, rs, lastId, h);
    PendingGrows(rest, rs, rs', lastId);
    PendingAdd(rest, rs', n, hNew, t2);
    ReplaceDisjoint(scheduled, rs, lastId, h, hNew, t2);
  }

  /**
   * Replacing a pending timer by one that names only its ids and the next
   * fresh id keeps the pending timers disjoint.
   */
  lemma {:induction false} ReplaceDisjoint(scheduled: map<nat, Timer>, rs: seq<Ripple>, lastId: nat, h: nat, hNew: nat, t2: Timer)
    requires PendingOk(scheduled, rs, lastId) && PendingDisjoint(scheduled)
    requires h in scheduled && hNew !in scheduled - {h}
    requires TimerIds(t2) <= TimerIds(scheduled[h]) + {lastId + 1}
    ensures PendingDisjoint((scheduled - {h})[hNew := t2])
  {
    var rest := scheduled - {h};
    PendingBelow(scheduled, rs, lastId);
    forall g | g in rest ensures TimerIds(rest[g]) !! TimerIds(t2) {
      assert TimerIds(scheduled[g]) !! TimerIds(scheduled[h]);
    }
    DisjointAdd(rest, hNew, t2);
  }

  /**
   * A t2 keeps the invariant and takes exactly two ripples off the screen:
   * its own pair is present, and no other pending timer names either of them.
   */
  lemma {:induction false} CleanupKeeps(rs: seq<Ripple>, lastId: nat, timers: seq<nat>, scheduled: map<nat, Timer>, lastHandle: nat, h: nat)
    requires Consistent(rs, lastId, timers, scheduled, lastHandle)
    requires h in scheduled && scheduled[h].Cleanup?
    ensures var t := scheduled[h];
      && Consistent(Without(rs, t.idA, t.idB), lastId, timers, scheduled - {h}, lastHandle)
      && Ids(Without(rs, t.idA, t.idB)) == Ids(rs) - {t.idA, t.idB}
      && |Without(rs, t.idA, t.idB)| == |rs| - 2
  {
    var t := scheduled[h];
    var rs' := Without(rs, t.idA, t.idB);
    var s' := scheduled - {h};
    WithoutOrdered(rs, 0, lastId, t.idA, t.idB);
    WithoutIds(rs, t.idA, t.idB);
    WithoutLength(rs, 0, lastId, t.idA, t.idB);
    forall g | g in s' ensures TimerValid(s'[g], rs', lastId) {
      assert TimerIds(scheduled[g]) !! TimerIds(t);
    }
  }

  /** Clearing any handle keeps the invariant: the remaining timers stay valid and disjoint. */
  lemma {:induction false} ClearKeeps(rs: seq<Ripple>, lastId: nat, timers: seq<nat>, scheduled: map<nat, Timer>, lastHandle: nat, h: nat)
    requires Consistent(rs, lastId, timers, scheduled, lastHandle)
    ensures Consistent(rs, lastId, timers, scheduled - {h}, lastHandle)
  {
    PendingRemove(scheduled, rs, lastId, h);
  }

  /** With nothing pending, any ordered ripple list is consistent. */
  lemma {:induction false} IdleConsistent(rs: seq<Ripple>, lastId: nat, lastHandle: nat)
    requires RipplesOk(rs, lastId)
    ensures Consistent(rs, lastId, [], map[], lastHandle)
  {
  }

  class Controller {
    /** The theme store (next-themes): `theme` and `resolvedTheme`. */
    var theme: Option<string>
    var resolvedTheme: Option<string>
    /** Set by the mount effect. */
    var mounted: bool
    /** The overlays on screen, in paint order. */
    var ripples: seq<Ripple>
    /** `seq.current`: the last id drawn. */
    var lastId: nat
    /** `timers.current`: every handle the component has scheduled. */
    var timers: seq<nat>
    /** The browser's pending timeouts, and the last handle it gave out. */
    var scheduled: map<nat, Timer>
    var lastHandle: nat

    ghost predicate Valid()
      reads this
    {
      Consistent(ripples, lastId, timers, scheduled, lastHandle)
    }

    /** The theme the page shows now: dark until mounted, then the store's. */
    function CurrentTheme(): (c: ThemeName)
      reads this
      ensures !mounted ==> c == Dark
      ensures mounted ==> (c == Light <==> resolvedTheme.OrElse(theme) == Some("light"))
    {
      Current(mounted, resolvedTheme, theme)
    }

    constructor (theme: Option<string>, resolvedTheme: Option<string>)
      ensures Valid()
      ensures this.theme == theme && this.resolvedTheme == resolvedTheme
      ensures !mounted && ripples == [] && lastId == 0
      ensures timers == [] && scheduled == map[] && lastHandle == 0
    {
      this.theme := theme;
      this.resolvedTheme := resolvedTheme;
      mounted := false;
      ripples := [];
      lastId := 0;
      timers := [];
      scheduled := map[];
      lastHandle := 0;
    }

    /** `useEffect(() => setMounted(true), [])`. */
    method Mount()
      requires Valid()
      modifies this`mounted
      ensures Valid() && mounted
    {
      mounted := true;
    }

    /** `window.clearTimeout`: the callback will never run, and the invariant still holds. */
    method ClearTimeout(h: nat)
      requires Valid()
      modifies this`scheduled
      ensures Valid()
      ensures scheduled == old(scheduled) - {h}
    {
      ClearKeeps(ripples, lastId, timers, scheduled, lastHandle, h);
      scheduled := scheduled - {h};
    }

    /**
     * `onClick`: one cover ripple with a fresh id is appended in the colour of
     * the target theme, and t1 is scheduled and recorded. The theme and the
     * ripples already on screen are left alone.
     */
    method Click() returns (t1: nat)
      requires Valid()
      modifies this
      ensures Valid()
      ensures lastId == old(lastId) + 1 && Ids(ripples) == Ids(old(ripples)) + {lastId}
      ensures var next := Next(old(CurrentTheme()));
        && ripples == old(ripples) + [Ripple(lastId, Cover, PageColor(next), OriginX, OriginY)]
        && scheduled == old(scheduled)[t1 := FlipAndReveal(lastId, next, PageColor(next))]
      ensures t1 == old(lastHandle) + 1 && lastHandle == t1 && t1 !in old(scheduled)
      ensures timers == old(timers) + [t1]
      ensures theme == old(theme) && resolvedTheme == old(resolvedTheme) && mounted == old(mounted)
    {
      var next := Next(CurrentTheme());
      var n, hNew := lastId + 1, lastHandle + 1;
      var cover := Ripple(n, Cover, PageColor(next), OriginX, OriginY);
      var rs, s, ts := ripples + [cover], scheduled[hNew := FlipAndReveal(n, next, PageColor(next))], timers + [hNew];
      ClickKeeps(ripples, lastId, timers, scheduled, lastHandle, next, rs, ts, s);
      ripples, lastId, scheduled, lastHandle, timers := rs, n, s, hNew, ts;
      t1 := hNew;
    }

    /**
     * The browser runs t1 with handle `h`, if it is still pending: the target
     * captured at click time is written to the store, then a `reveal` ripple
     * with a fresh id and the same colour is appended and t2 is scheduled and
     * recorded. A handle that is not a pending t1 changes nothing.
     */
    method FireT1(h: nat) returns (t2: nat)
      requires Valid()
      modifies this
      ensures Valid()
      ensures old(h in scheduled && scheduled[h].FlipAndReveal?) ==>
        var t := old(scheduled[h]);
        && theme == Some(Name(t.target)) && resolvedTheme == Some(Name(t.target))
        && lastId == old(lastId) + 1
        && ripples == old(ripples) + [Ripple(lastId, Reveal, t.color, OriginX, OriginY)]
        && Ids(ripples) == Ids(old(ripples)) + {lastId}
        && t2 == old(lastHandle) + 1 && lastHandle == t2
        && scheduled == (old(scheduled) - {h})[t2 := Cleanup(t.idA, lastId)]
        && timers == old(timers) + [t2]
        && mounted == old(mounted)
      ensures !old(h in scheduled && scheduled[h].FlipAndReveal?) ==>
        t2 == 0 && unchanged(this)
    {
      if h in scheduled && scheduled[h].FlipAndReveal? {
        var t := scheduled[h];
        var n, hNew := lastId + 1, lastHandle + 1;
        var second := Ripple(n, Reveal, t.color, OriginX, OriginY);
        var rs, s, ts := ripples + [second], (scheduled - {h})[hNew := Cleanup(t.idA, n)], timers + [hNew];
        FlipKeeps(ripples, lastId, timers, scheduled, lastHandle, h, rs, ts, s);
        theme, resolvedTheme := Some(Name(t.target)), Some(Name(t.target));
        ripples, lastId, scheduled, lastHandle, timers := rs, n, s, hNew, ts;
        t2 := hNew;
      } else {
        t2 := 0;
      }
    }

    /**
     * The browser runs t2 with handle `h`, if it is still pending: exactly the
     * `cover` and `reveal` ripples of its own click disappear, both of which are
     * on screen, and every other ripple stays in order. A handle that is not
     * a pending t2 changes nothing.
     */
    method FireT2(h: nat)
      requires Valid()
      modifies this`ripples, this`scheduled
      ensures Valid()
      ensures old(h in scheduled && scheduled[h].Cleanup?) ==>
        var t := old(scheduled[h]);
        && ripples == Without(old(ripples), t.idA, t.idB)
        && Ids(ripples) == Ids(old(ripples)) - {t.idA, t.idB}
        && |ripples| == |old(ripples)| - 2
        && scheduled == old(scheduled) - {h}
      ensures !old(h in scheduled && scheduled[h].Cleanup?) ==> unchanged(this)
    {
      if h in scheduled && scheduled[h].Cleanup? {
        var Cleanup(idA, idB) := scheduled[h];
        CleanupKeeps(ripples, lastId, timers, scheduled, lastHandle, h);
        scheduled := scheduled - {h};
        ripples := Without(ripples, idA, idB);
      }
    }

    /**
     * The unmount cleanup: every recorded handle is cleared and the list is
     * emptied, so no callback of this component can run any more.
     */
    method Unmount()
      requires Valid()
      modifies this`scheduled, this`timers
      ensures Valid()
      ensures scheduled == map[] && timers == []
    {
      ghost var pending := scheduled;
      assert HandlesOk(pending, timers, lastHandle);
      var i := 0;
      while i < |timers|
        modifies this`scheduled
        invariant 0 <= i <= |timers| && Valid()
        invariant forall h :: h in scheduled ==> h in pending && h !in timers[..i]
      {
        ClearTimeout(timers[i]);
        i := i + 1;
      }
      assert timers[..i] == timers;
      assert scheduled.Keys == {};
      assert scheduled == map[];
      timers := [];
      IdleConsistent(ripples, lastId, lastHandle);
    }
  }

  /**
   * One click on a mounted controller, with its two timers run to the end:
   * the ripple count goes 0, 1, 2, 0 and the theme ends opposite to where it
   * started.
   */
  method LoneActivation(stored: ThemeName) returns (counts: seq<nat>, before: ThemeName, after: ThemeName)
    ensures counts == [0, 1, 2, 0]
    ensures before == stored && after == Opposite(stored)
  {
    var c := new Controller(Some(Name(stored)), Some(Name(stored)));
    c.Mount();
    before := c.CurrentTheme();
    assert before == stored by { assert Name(Dark) != "light"; }
    var n0: nat := |c.ripples|;
    var t1 := c.Click();
    var n1: nat := |c.ripples|;
    var t2 := c.FireT1(t1);
    var n2: nat := |c.ripples|;
    c.FireT2(t2);
    var n3: nat := |c.ripples|;
    counts := [n0, n1, n2, n3];
    after := c.CurrentTheme();
  }

  /**
   * Two clicks on a freshly mounted controller: both capture the same target,
   * the opposite of the theme on screen.
   */
  method ClickTwice(c: Controller, target: ThemeName) returns (h1: nat, h2: nat)
    requires c.Valid() && c.mounted && Next(c.CurrentTheme()) == target
    requires c.ripples == [] && c.lastId == 0 && c.scheduled == map[] && c.lastHandle == 0
    modifies c
    ensures c.Valid() && c.mounted && c.CurrentTheme() == old(c.CurrentTheme())
    ensures c.lastId == 2 && Ids(c.ripples) == {1, 2} && c.lastHandle == 2 && h1 == 1 && h2 == 2
    ensures c.scheduled.Keys == {1, 2}
    ensures c.scheduled[1] == FlipAndReveal(1, target, PageColor(target)) && c.scheduled[2] == FlipAndReveal(2, target, PageColor(target))
  {
    h1 := c.Click();
    assert Ids(c.ripples) == {1};
    h2 := c.Click();
  }

  /**
   * Both pending t1 callbacks run, in click order: each writes the same
   * target and schedules a t2 naming its own `cover` and `reveal` ripples.
   */
  method FlipBoth(c: Controller, target: ThemeName) returns (u1: nat, u2: nat)
    requires c.Valid() && c.mounted && c.lastId == 2 && Ids(c.ripples) == {1, 2} && c.lastHandle == 2
    requires c.scheduled.Keys == {1, 2}
    requires c.scheduled[1] == FlipAndReveal(1, target, PageColor(target)) && c.scheduled[2] == FlipAndReveal(2, target, PageColor(target))
    modifies c
    ensures c.Valid() && c.mounted && c.CurrentTheme() == target
    ensures Ids(c.ripples) == {1, 2, 3, 4} && u1 == 3 && u2 == 4
    ensures c.scheduled.Keys == {3, 4} && c.scheduled[3] == Cleanup(1, 3) && c.scheduled[4] == Cleanup(2, 4)
  {
    u1 := c.FireT1(1);
    assert c.scheduled.Keys == {2, 3} && c.scheduled[2] == FlipAndReveal(2, target, PageColor(target));
    assert Ids(c.ripples) == {1, 2, 3};
    u2 := c.FireT1(2);
    assert c.lastId == 4 && Ids(c.ripples) == {1, 2, 3} + {4};
    assert c.CurrentTheme() == target by { assert Name(Dark) != "light"; }
  }

  /**
   * Two clicks before either t1 runs: both target the same theme, and running
   * the first t2 leaves exactly the second click's two ripples.
   */
  method DoubleActivation(stored: ThemeName)
    returns (target1: ThemeName, target2: ThemeName, survivors: set<nat>, secondPair: set<nat>, finalTheme: ThemeName)
    ensures target1 == target2 == Opposite(stored)
    ensures survivors == secondPair && |secondPair| == 2
    ensures finalTheme == Opposite(stored)
  {
    var c := new Controller(Some(Name(stored)), Some(Name(stored)));
    c.Mount();
    assert c.CurrentTheme() == stored by { assert Name(Dark) != "light"; }
    var h1, h2 := ClickTwice(c, Opposite(stored));
    target1 := c.scheduled[h1].target;
    target2 := c.scheduled[h2].target;
    var u1, u2 := FlipBoth(c, Opposite(stored));
    var idA2, idB2 := c.scheduled[u2].idA, c.scheduled[u2].idB;
    secondPair := {idA2, idB2};
    assert secondPair == {2, 4};
    survivors := FirstCleanup(c, Opposite(stored));
    finalTheme := c.CurrentTheme();
  }

  /** The first click's t2 runs: the second click's cover and reveal ripples are all that is left. */
  method FirstCleanup(c: Controller, target: ThemeName) returns (survivors: set<nat>)
    requires c.Valid() && c.CurrentTheme() == target && Ids(c.ripples) == {1, 2, 3, 4}
    requires c.scheduled.Keys == {3, 4} && c.scheduled[3] == Cleanup(1, 3)
    modifies c
    ensures c.Valid() && c.CurrentTheme() == target
    ensures survivors == Ids(c.ripples) == {2, 4}
  {
    c.FireT2(3);
    survivors := Ids(c.ripples);
  }

  /**
   * Unmounting between the click and t1: the cancelled t1 cannot write the
   * theme when its time would have come.
   */
  method TeardownBeforeFlip(stored: ThemeName) returns (before: ThemeName, after: ThemeName)
    ensures before == after == stored
  {
    var c := new Controller(Some(Name(stored)), Some(Name(stored)));
    c.Mount();
    before := c.CurrentTheme();
    assert before == stored by { assert Name(Dark) != "light"; }
    var t1 := c.Click();
    c.Unmount();
    var t2 := c.FireT1(t1);
    c.FireT2(t2);
    after := c.CurrentTheme();
  }
}
