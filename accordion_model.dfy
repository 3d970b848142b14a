/** The index/transition state machine of the Accordion widget, as values.

    A State is everything the widget object keeps that decides what a tab click
    does: the open index, the previous index, the animation lock, the height used
    for equalized panels, which tabs and panels carry the active class, the height
    each panel was last set to, the height tweens still running and the notifications
    emitted so far. Each event the widget reacts to (construction, a tab click, the
    completion of a tween, a window resize) is one function from State to State;
    the class in module AccordionWidget is proved to implement exactly these. */
module AccordionModel {

  datatype Option<T> = None | Some(value: T)

  /** A CSS height: the keyword `auto` or a number of pixels (possibly fractional). */
  datatype Height = Auto | Px(px: real)

  /** The options the state machine reads. The selectors, the class name, the tween
      duration and easing, and the event prefix only name things and are not modelled. */
  datatype Options = Options(initialIndex: int, equalizeHeight: bool, selfClosing: bool)

  /** One panel element as found in the markup: its id ("" when it has none) and
      whether the markup already gives it the active class. */
  datatype PanelMarkup = PanelMarkup(id: string, active: bool)

  /** The three kinds of height tween: the self-closing collapse, an opening panel,
      and the collapse of the previous panel during an accordion switch. */
  datatype TweenKind = SelfClose | Open | AccordionClose

  /** A height tween that has started and whose onComplete callback has not run yet. */
  datatype Tween = Tween(kind: TweenKind, panel: int, target: Height)
  {
    /** The tweens whose onComplete callback clears the animation lock. */
    predicate HoldsLock() { kind != AccordionClose }
  }

  /** The custom notifications the widget emits. */
  datatype Event = Initialized | PanelClosed | PanelOpened(index: int)

  datatype State = State(
    current: int,          // currentIndex: the open panel, -1 when all are closed
    prev: Option<int>,     // prevIndex: None stands for the sentinel `false`
    animating: bool,       // isAnimating: the click lock
    maxHeight: Height,
    focusOnInit: bool,
    tabMarks: seq<bool>,   // which tabs carry the active class
    panelMarks: seq<bool>, // which panels carry the active class
    heights: seq<Height>,  // the height each panel was last set to outside a running tween
    inFlight: seq<Tween>,  // started tweens, in start order
    events: seq<Event>)    // notifications emitted so far

  // ---------------------------------------------------------------------------
  // Element collections

  /** Writing to element i of a jQuery collection: a no-op when i is outside it
      (the element is `undefined` and wrapping it gives an empty selection). */
  function Put<T>(xs: seq<T>, i: int, v: T): (r: seq<T>)
    ensures |r| == |xs|
    ensures forall j :: 0 <= j < |xs| ==> r[j] == (if j == i then v else xs[j])
  {
    if 0 <= i < |xs| then xs[i := v] else xs
  }

  /** The indices that carry the active class. */
  function Marked(marks: seq<bool>): set<int>
  {
    set j | 0 <= j < |marks| && marks[j]
  }

  /** {i} when i is an index of a collection of n elements, otherwise empty. */
  function Within(i: int, n: nat): set<int>
  {
    if 0 <= i < n then {i} else {}
  }

  /** Adding the class to element i marks i, when it exists; removing it unmarks i. */
  lemma MarkedPut(xs: seq<bool>, i: int, v: bool)
    ensures Marked(Put(xs, i, v)) == if v then Marked(xs) + Within(i, |xs|) else Marked(xs) - {i}
  {
    var r := Put(xs, i, v);
    if v {
      forall j | j in Marked(xs) + Within(i, |xs|) ensures j in Marked(r) {
        assert r[j];
      }
    }
  }

  /** The marker pattern of n elements in which only element c is marked. */
  function OnlyAt(c: int, n: nat): seq<bool>
  {
    seq(n, j => j == c)
  }

  /** Exactly the open panel (and its tab) carries the active class. */
  ghost predicate MarkersExact(s: State)
  {
    s.tabMarks == OnlyAt(s.current, |s.tabMarks|) &&
    s.panelMarks == OnlyAt(s.current, |s.panelMarks|)
  }

  lemma OnlyAtMarksOne(c: int, n: nat)
    ensures Marked(OnlyAt(c, n)) == if 0 <= c < n then {c} else {}
  {
    var m := OnlyAt(c, n);
    if 0 <= c < n {
      assert m[c];
      assert c in Marked(m);
    }
  }

  /** With exact markers, the set of active panels is the open panel alone, or empty
      when no panel is open; so two panels are never active at once. */
  lemma ExactMarkersAreSingleton(s: State)
    requires MarkersExact(s)
    requires -1 <= s.current < |s.panelMarks|
    ensures Marked(s.panelMarks) == if s.current == -1 then {} else {s.current}
    ensures s.current < |s.tabMarks| ==>
              Marked(s.tabMarks) == if s.current == -1 then {} else {s.current}
    ensures |Marked(s.panelMarks)| <= 1
  {
    OnlyAtMarksOne(s.current, |s.panelMarks|);
    OnlyAtMarksOne(s.current, |s.tabMarks|);
  }

  // ---------------------------------------------------------------------------
  // The animation lock

  /** The number of running tweens whose completion clears the lock. */
  function LockHolders(ts: seq<Tween>): nat
  {
    if ts == [] then 0 else (if ts[0].HoldsLock() then 1 else 0) + LockHolders(ts[1..])
  }

  lemma {:induction false} LockHoldersConcat(a: seq<Tween>, b: seq<Tween>)
    ensures LockHolders(a + b) == LockHolders(a) + LockHolders(b)
  {
    if a == [] {
      assert a + b == b;
    } else {
      assert (a + b)[1..] == a[1..] + b;
      LockHoldersConcat(a[1..], b);
    }
  }

  lemma {:induction false} NoLockHolderIn(ts: seq<Tween>)
    requires LockHolders(ts) == 0
    ensures forall t :: t in ts ==> !t.HoldsLock()
  {
    if ts != [] {
      NoLockHolderIn(ts[1..]);
      assert forall t :: t in ts ==> t == ts[0] || t in ts[1..];
    }
  }

  /** Removing the k-th running tween removes one lock holder exactly when that
      tween holds the lock. */
  lemma LockHoldersRemove(ts: seq<Tween>, k: nat)
    requires k < |ts|
    ensures LockHolders(ts[..k] + ts[k+1..]) == LockHolders(ts) - (if ts[k].HoldsLock() then 1 else 0)
  {
    assert ts == ts[..k] + ([ts[k]] + ts[k+1..]);
    LockHoldersConcat(ts[..k], [ts[k]] + ts[k+1..]);
    LockHoldersConcat([ts[k]], ts[k+1..]);
    LockHoldersConcat(ts[..k], ts[k+1..]);
  }

  /** Starting one lock-holding tween adds one lock holder. */
  lemma OneStartedLockHolder(ts: seq<Tween>, t: Tween)
    requires t.HoldsLock()
    ensures LockHolders(ts + [t]) == LockHolders(ts) + 1
  {
    assert [t][1..] == [];
    LockHoldersConcat(ts, [t]);
  }

  /** An accordion switch starts two tweens, of which only the opening one holds
      the lock. */
  lemma AccordionStartsOneLockHolder(ts: seq<Tween>, current: int, target: Height, from: int)
    ensures LockHolders(ts + [Tween(Open, current, target), Tween(AccordionClose, from, Px(0.0))])
            == LockHolders(ts) + 1
  {
    var started := [Tween(Open, current, target), Tween(AccordionClose, from, Px(0.0))];
    assert LockHolders(started) == 1 by {
      assert started[1..] == [started[1]] && started[1..][1..] == [];
      assert LockHolders(started[1..]) == 0;
    }
    LockHoldersConcat(ts, started);
  }

  /** The lock is held exactly while one lock-holding tween runs; that tween moves
      towards the current state (the opening of the open panel, or the collapse to
      "all closed"). The structural facts: one height per panel, the open index is
      below the panel count (0 only when there are no panels), and a numeric maxHeight
      exactly when heights are equalized. */
  ghost predicate Inv(s: State, opts: Options)
  {
    && |s.heights| == |s.panelMarks|
    && (s.current < |s.panelMarks| || s.current == 0)
    && (opts.equalizeHeight <==> s.maxHeight.Px?)
    && LockHolders(s.inFlight) <= 1
    && (s.animating <==> LockHolders(s.inFlight) == 1)
    && (forall t :: t in s.inFlight && t.HoldsLock() ==>
          (t.kind == Open ==> t.panel == s.current) &&
          (t.kind == SelfClose ==> s.current == -1))
  }

  // ---------------------------------------------------------------------------
  // Construction

  /** String.replace('#', ''): removes the first '#' only. */
  function ReplaceFirstHash(s: string): (r: string)
    ensures '#' !in s ==> r == s
    ensures |r| == if '#' in s then |s| - 1 else |s|
    ensures forall c :: c != '#' ==> multiset(r)[c] == multiset(s)[c]
  {
    if s == [] then []
    else if s[0] == '#' then
      assert s == [s[0]] + s[1..];
      s[1..]
    else
      assert s == [s[0]] + s[1..];
      [s[0]] + ReplaceFirstHash(s[1..])
  }

  /** The urlHash the widget reads: the fragment with its first '#' removed, or
      None (the value `false`) when nothing is left. */
  function UrlHash(locationHash: string): (r: Option<string>)
    ensures r.None? <==> ReplaceFirstHash(locationHash) == ""
    ensures r.Some? ==> r.value == ReplaceFirstHash(locationHash) && r.value != ""
  {
    var stripped := ReplaceFirstHash(locationHash);
    if stripped == "" then None else Some(stripped)
  }

  /** The '#' removed is the first one: s with its k-th character cut out, where k
      is the first position of '#'. */
  lemma {:induction false} ReplaceFirstHashCutsFirst(s: string, k: nat)
    requires k < |s| && s[k] == '#' && '#' !in s[..k]
    ensures ReplaceFirstHash(s) == s[..k] + s[k+1..]
  {
    if k > 0 {
      assert s[0] in s[..k];
      assert s[1..][..k-1] == s[1..k];
      assert '#' !in s[1..][..k-1] by {
        forall c | c in s[1..k] ensures c in s[..k] {
          var j :| 0 <= j < k - 1 && s[1..k][j] == c;
          assert s[..k][j + 1] == c;
        }
      }
      ReplaceFirstHashCutsFirst(s[1..], k - 1);
      assert s[..k] == [s[0]] + s[1..][..k-1];
      assert s[k+1..] == s[1..][k..];
    }
  }

  /** A fragment as browsers report it ("#" followed by the id) yields the id;
      a bare "#" yields `false`. */
  lemma UrlHashOfFragment(id: string)
    ensures UrlHash(['#'] + id) == if id == "" then None else Some(id)
  {
    assert (['#'] + id)[1..] == id;
  }

  /** The first index of x in xs, if any. */
  function FirstIndexOf(xs: seq<string>, x: string): (r: Option<nat>)
    ensures r.None? <==> x !in xs
    ensures r.Some? ==> r.value < |xs| && xs[r.value] == x && x !in xs[..r.value]
  {
    if xs == [] then None
    else if xs[0] == x then
      assert xs[..0] == [];
      Some(0)
    else
      match FirstIndexOf(xs[1..], x)
      case None =>
        assert xs == [xs[0]] + xs[1..];
        None
      case Some(i) =>
        assert xs[..i + 1] == [xs[0]] + xs[1..][..i];
        Some(i + 1)
  }

  /** An initialIndex at or beyond the panel count is reset to 0; any other value,
      negative ones included, is kept. */
  function ClampInitialIndex(initialIndex: int, len: nat): (r: int)
    ensures r < len || r == 0
    ensures r != initialIndex ==> initialIndex >= len && r == 0
  {
    if initialIndex >= len then 0 else initialIndex
  }

  /** The open index and focusOnInit after construction: the first panel whose id is
      the url hash, with focusOnInit set; otherwise the clamped initialIndex. */
  function InitialIndex(initialIndex: int, ids: seq<string>, locationHash: string): (r: (int, bool))
    ensures r.1 <==> UrlHash(locationHash).Some? && UrlHash(locationHash).value in ids
    ensures r.1 ==> 0 <= r.0 < |ids| && ids[r.0] == UrlHash(locationHash).value &&
                    UrlHash(locationHash).value !in ids[..r.0]
    ensures !r.1 && initialIndex >= |ids| ==> r.0 == 0
    ensures !r.1 && initialIndex < |ids| ==> r.0 == initialIndex
  {
    var clamped := ClampInitialIndex(initialIndex, |ids|);
    match UrlHash(locationHash)
    case None => (clamped, false)
    case Some(hash) =>
      match FirstIndexOf(ids, hash)
      case Some(i) => (i as int, true)
      case None => (clamped, false)
  }

  function Ids(panels: seq<PanelMarkup>): seq<string>
  {
    seq(|panels|, i requires 0 <= i < |panels| => panels[i].id)
  }

  function PanelMarks(panels: seq<PanelMarkup>): seq<bool>
  {
    seq(|panels|, i requires 0 <= i < |panels| => panels[i].active)
  }

  /** init and initDOM: the state right after construction. tabs says which tab
      elements the markup already marks active; equalizedHeight is the height the
      height equalizer computes. */
  function Initial(opts: Options, panels: seq<PanelMarkup>, tabs: seq<bool>,
                   locationHash: string, equalizedHeight: real): (r: State)
    ensures (r.current, r.focusOnInit) == InitialIndex(opts.initialIndex, Ids(panels), locationHash)
    ensures !r.animating && r.prev == None && r.inFlight == [] && r.events == [Initialized]
    ensures r.maxHeight.Px? <==> opts.equalizeHeight
    ensures opts.equalizeHeight ==> r.maxHeight == Px(equalizedHeight)
    ensures |r.tabMarks| == |tabs| && |r.panelMarks| == |r.heights| == |panels|
    ensures forall j :: 0 <= j < |panels| ==>
              r.panelMarks[j] == (j == r.current || panels[j].active) && r.heights[j] == r.maxHeight
    ensures forall j :: 0 <= j < |tabs| ==> r.tabMarks[j] == (j == r.current || tabs[j])
  {
    var r := InitialIndex(opts.initialIndex, Ids(panels), locationHash);
    var maxHeight := if opts.equalizeHeight then Px(equalizedHeight) else Auto;
    State(r.0, None, false, maxHeight, r.1,
          Put(tabs, r.0, true), Put(PanelMarks(panels), r.0, true),
          seq(|panels|, _ => maxHeight), [], [Initialized])
  }

  /** The state after construction keeps the invariant: the lock is free, no tween
      runs, and no transition has happened yet. */
  lemma InitialInv(opts: Options, panels: seq<PanelMarkup>, tabs: seq<bool>,
                   locationHash: string, equalizedHeight: real)
    ensures Inv(Initial(opts, panels, tabs, locationHash, equalizedHeight), opts)
    ensures var s := Initial(opts, panels, tabs, locationHash, equalizedHeight);
      && !s.animating && s.inFlight == [] && s.prev == None
      && (s.current, s.focusOnInit) == InitialIndex(opts.initialIndex, Ids(panels), locationHash)
  {
  }

  /** When the markup marks no tab and no panel active, construction leaves exactly
      the open panel and its tab marked; a negative index or an empty widget leaves
      nothing marked. */
  lemma CleanMarkupGivesExactMarkers(opts: Options, panels: seq<PanelMarkup>, tabs: seq<bool>,
                                     locationHash: string, equalizedHeight: real)
    requires forall i :: 0 <= i < |tabs| ==> !tabs[i]
    requires forall i :: 0 <= i < |panels| ==> !panels[i].active
    ensures MarkersExact(Initial(opts, panels, tabs, locationHash, equalizedHeight))
  {
    var s := Initial(opts, panels, tabs, locationHash, equalizedHeight);
    assert s.tabMarks == OnlyAt(s.current, |s.tabMarks|);
    assert s.panelMarks == OnlyAt(s.current, |s.panelMarks|);
  }

  // ---------------------------------------------------------------------------
  // Transitions

  /** The height an opening panel is tweened to: maxHeight when heights are
      equalized, otherwise the height measured when the transition starts. */
  function OpenTarget(opts: Options, maxHeight: Height, measured: real): (r: Height)
    ensures r == maxHeight || r == Px(measured)
    ensures (opts.equalizeHeight <==> maxHeight.Px?) ==> r.Px?
  {
    if opts.equalizeHeight then maxHeight else Px(measured)
  }

  /** animateSelfClosed(index) */
  function AfterSelfClosed(s: State, index: int): (r: State)
    ensures r.animating && LockHolders(r.inFlight) == LockHolders(s.inFlight) + 1
    ensures r.current == s.current && r.prev == s.prev && r.maxHeight == s.maxHeight
    ensures r.heights == s.heights && r.focusOnInit == s.focusOnInit
    ensures |r.panelMarks| == |s.panelMarks| && |r.tabMarks| == |s.tabMarks|
    ensures Marked(r.panelMarks) == Marked(s.panelMarks) - {index}
    ensures Marked(r.tabMarks) == Marked(s.tabMarks) - {index}
    ensures r.events == s.events + [PanelClosed]
  {
    MarkedPut(s.panelMarks, index, false);
    MarkedPut(s.tabMarks, index, false);
    OneStartedLockHolder(s.inFlight, Tween(SelfClose, index, Px(0.0)));
    s.(animating := true,
       tabMarks := Put(s.tabMarks, index, false),
       panelMarks := Put(s.panelMarks, index, false),
       inFlight := s.inFlight + [Tween(SelfClose, index, Px(0.0))],
       events := s.events + [PanelClosed])
  }

  /** animateSelfOpen(index); measured is the panel's height as measured on entry. */
  function AfterSelfOpen(s: State, opts: Options, index: int, measured: real): (r: State)
    ensures r.animating && LockHolders(r.inFlight) == LockHolders(s.inFlight) + 1
    ensures r.current == s.current && r.prev == s.prev && r.maxHeight == s.maxHeight
    ensures r.focusOnInit == s.focusOnInit
    ensures |r.panelMarks| == |s.panelMarks| && |r.tabMarks| == |s.tabMarks|
    ensures |r.heights| == |s.heights|
    ensures Marked(r.panelMarks) == Marked(s.panelMarks) + Within(index, |s.panelMarks|)
    ensures Marked(r.tabMarks) == Marked(s.tabMarks) + Within(index, |s.tabMarks|)
    ensures r.events == s.events + [PanelOpened(s.current)]
  {
    MarkedPut(s.panelMarks, index, true);
    MarkedPut(s.tabMarks, index, true);
    OneStartedLockHolder(s.inFlight, Tween(Open, index, OpenTarget(opts, s.maxHeight, measured)));
    s.(animating := true,
       tabMarks := Put(s.tabMarks, index, true),
       panelMarks := Put(s.panelMarks, index, true),
       heights := if opts.equalizeHeight then Put(s.heights, index, Px(0.0)) else s.heights,
       inFlight := s.inFlight + [Tween(Open, index, OpenTarget(opts, s.maxHeight, measured))],
       events := s.events + [PanelOpened(s.current)])
  }

  /** animateAccordion(): the marker moves from prev to current, the current panel is
      tweened open and the previous one closed. */
  function AfterAccordion(s: State, opts: Options, measured: real): (r: State)
    requires s.prev.Some?
    ensures r.animating && LockHolders(r.inFlight) == LockHolders(s.inFlight) + 1
    ensures r.current == s.current && r.prev == s.prev && r.maxHeight == s.maxHeight
    ensures r.focusOnInit == s.focusOnInit
    ensures |r.panelMarks| == |s.panelMarks| && |r.tabMarks| == |s.tabMarks|
    ensures |r.heights| == |s.heights|
    ensures Marked(r.panelMarks) ==
              (Marked(s.panelMarks) - {s.prev.value}) + Within(s.current, |s.panelMarks|)
    ensures Marked(r.tabMarks) ==
              (Marked(s.tabMarks) - {s.prev.value}) + Within(s.current, |s.tabMarks|)
    ensures r.events == s.events + [PanelOpened(s.current)]
  {
    var from := s.prev.value;
    MarkedPut(s.panelMarks, from, false);
    MarkedPut(Put(s.panelMarks, from, false), s.current, true);
    MarkedPut(s.tabMarks, from, false);
    MarkedPut(Put(s.tabMarks, from, false), s.current, true);
    AccordionStartsOneLockHolder(s.inFlight, s.current, OpenTarget(opts, s.maxHeight, measured), from);
    s.(animating := true,
       tabMarks := Put(Put(s.tabMarks, from, false), s.current, true),
       panelMarks := Put(Put(s.panelMarks, from, false), s.current, true),
       heights := if opts.equalizeHeight then Put(s.heights, s.current, Px(0.0)) else s.heights,
       inFlight := s.inFlight + [Tween(Open, s.current, OpenTarget(opts, s.maxHeight, measured)),
                                 Tween(AccordionClose, from, Px(0.0))],
       events := s.events + [PanelOpened(s.current)])
  }

  /** __clickTab: the case analysis on selfClosing and on the open index. */
  function AfterClickTab(s: State, opts: Options, index: int, measured: real): (r: State)
    ensures r == s || (r.animating && LockHolders(r.inFlight) == LockHolders(s.inFlight) + 1)
    ensures r == s <==> !opts.selfClosing && s.current == index
    ensures r.current == index || (r.current == -1 && opts.selfClosing) || r == s
    ensures r == s || r.events == s.events + [if opts.selfClosing && s.current == index
                                              then PanelClosed else PanelOpened(index)]
    ensures r.maxHeight == s.maxHeight && r.focusOnInit == s.focusOnInit
    ensures |r.panelMarks| == |s.panelMarks| && |r.tabMarks| == |s.tabMarks|
    ensures |r.heights| == |s.heights|
  {
    if opts.selfClosing then
      if s.current == index then AfterSelfClosed(s.(prev := None, current := -1), index)
      else if s.current == -1 then AfterSelfOpen(s.(prev := None, current := index), opts, index, measured)
      else AfterAccordion(s.(prev := Some(s.current), current := index), opts, measured)
    else if s.current == index then s
    else AfterAccordion(s.(prev := Some(s.current), current := index), opts, measured)
  }

  /** The click handler bound to every tab: clicks are dropped while animating. */
  function AfterClick(s: State, opts: Options, index: int, measured: real): (r: State)
    ensures r == s || (!s.animating && r.animating)
    ensures r == s || r.events == s.events + [if opts.selfClosing && s.current == index
                                              then PanelClosed else PanelOpened(index)]
    ensures r.maxHeight == s.maxHeight && r.focusOnInit == s.focusOnInit
    ensures |r.panelMarks| == |s.panelMarks| && |r.tabMarks| == |s.tabMarks|
    ensures |r.heights| == |s.heights|
  {
    if s.animating then s else AfterClickTab(s, opts, index, measured)
  }

  /** The onComplete callback of the k-th running tween: the panel's height is set to
      maxHeight as it is now, and the lock is cleared unless it is an accordion close. */
  function AfterComplete(s: State, k: nat): (r: State)
    requires k < |s.inFlight|
    ensures multiset(r.inFlight) + multiset{s.inFlight[k]} == multiset(s.inFlight)
    ensures r.animating == (s.animating && !s.inFlight[k].HoldsLock())
    ensures r.current == s.current && r.prev == s.prev && r.maxHeight == s.maxHeight
    ensures r.tabMarks == s.tabMarks && r.panelMarks == s.panelMarks && r.events == s.events
    ensures |r.heights| == |s.heights|
    ensures forall j :: 0 <= j < |s.heights| && j != s.inFlight[k].panel ==> r.heights[j] == s.heights[j]
  {
    var t := s.inFlight[k];
    assert s.inFlight == s.inFlight[..k] + [t] + s.inFlight[k+1..];
    s.(animating := if t.HoldsLock() then false else s.animating,
       heights := Put(s.heights, t.panel, s.maxHeight),
       inFlight := s.inFlight[..k] + s.inFlight[k+1..])
  }

  /** __onWindowResize: adopt the equalizer's recomputed height, when equalizing. */
  function AfterResize(s: State, opts: Options, equalizedHeight: real): (r: State)
    ensures r.(maxHeight := s.maxHeight) == s
    ensures r.maxHeight.Px? <==> s.maxHeight.Px? || opts.equalizeHeight
    ensures opts.equalizeHeight ==> r.maxHeight == Px(equalizedHeight)
  {
    if opts.equalizeHeight then s.(maxHeight := Px(equalizedHeight)) else s
  }

  // ---------------------------------------------------------------------------
  // Properties of the transitions

  /** A click while the lock is held changes nothing. */
  lemma ClickWhileAnimatingIsDropped(s: State, opts: Options, index: int, measured: real)
    requires s.animating
    ensures AfterClick(s, opts, index, measured) == s
  {
  }

  /** The outcome of a click on tab index when the lock is free, case by case:
      which index is open and previous afterwards, which markers change, the lock,
      and the tweens started. */
  lemma ClickCases(s: State, opts: Options, index: int, measured: real)
    requires !s.animating
    requires 0 <= index < |s.panelMarks| && index < |s.tabMarks|
    ensures var r := AfterClick(s, opts, index, measured);
      && r.maxHeight == s.maxHeight && r.focusOnInit == s.focusOnInit
      && |r.panelMarks| == |s.panelMarks| && |r.tabMarks| == |s.tabMarks|
      && (opts.selfClosing && s.current == index ==>
            && r.current == -1 && r.prev == None && r.animating
            && r.panelMarks == s.panelMarks[index := false]
            && r.tabMarks == s.tabMarks[index := false]
            && r.inFlight == s.inFlight + [Tween(SelfClose, index, Px(0.0))])
      && (opts.selfClosing && s.current == -1 ==>
            && r.current == index && r.prev == None && r.animating
            && r.panelMarks == s.panelMarks[index := true]
            && r.tabMarks == s.tabMarks[index := true]
            && r.inFlight == s.inFlight + [Tween(Open, index, OpenTarget(opts, s.maxHeight, measured))])
      && (s.current != index && (s.current != -1 || !opts.selfClosing) ==>
            && r.current == index && r.prev == Some(s.current) && r.animating
            && (forall j :: 0 <= j < |s.panelMarks| ==>
                  r.panelMarks[j] == (if j == index then true
                                      else if j == s.current then false else s.panelMarks[j]))
            && (forall j :: 0 <= j < |s.tabMarks| ==>
                  r.tabMarks[j] == (if j == index then true
                                    else if j == s.current then false else s.tabMarks[j]))
            && r.inFlight == s.inFlight + [Tween(Open, index, OpenTarget(opts, s.maxHeight, measured)),
                                           Tween(AccordionClose, s.current, Px(0.0))])
      && (!opts.selfClosing && s.current == index ==> r == s)
  {
  }

  /** The target of an opening tween is maxHeight when equalizing, otherwise the
      measured height; an equalized panel is first set to height 0. */
  lemma OpenTweenTarget(s: State, opts: Options, index: int, measured: real)
    requires Inv(s, opts) && !s.animating
    requires 0 <= index < |s.panelMarks|
    ensures var r := AfterClick(s, opts, index, measured);
      forall t :: t in r.inFlight && t.kind == Open && t !in s.inFlight ==>
        && t.panel == index
        && (opts.equalizeHeight ==> t.target == s.maxHeight && t.target.Px? && r.heights[index] == Px(0.0))
        && (!opts.equalizeHeight ==> t.target == Px(measured))
  {
  }

  lemma SelfClosedInv(s: State, opts: Options, index: int)
    requires Inv(s, opts) && !s.animating && s.current == -1
    ensures Inv(AfterSelfClosed(s, index), opts)
  {
    NoLockHolderIn(s.inFlight);
    LockHoldersConcat(s.inFlight, [Tween(SelfClose, index, Px(0.0))]);
  }

  lemma SelfOpenInv(s: State, opts: Options, index: int, measured: real)
    requires Inv(s, opts) && !s.animating && s.current == index
    ensures Inv(AfterSelfOpen(s, opts, index, measured), opts)
  {
    NoLockHolderIn(s.inFlight);
    LockHoldersConcat(s.inFlight, [Tween(Open, index, OpenTarget(opts, s.maxHeight, measured))]);
  }

  lemma AccordionInv(s: State, opts: Options, measured: real)
    requires Inv(s, opts) && !s.animating && s.prev.Some?
    ensures Inv(AfterAccordion(s, opts, measured), opts)
  {
    var started := [Tween(Open, s.current, OpenTarget(opts, s.maxHeight, measured)),
                    Tween(AccordionClose, s.prev.value, Px(0.0))];
    assert LockHolders(started) == 1 by {
      assert started[1..] == [started[1]] && started[1..][1..] == [];
      assert LockHolders(started[1..]) == 0;
    }
    NoLockHolderIn(s.inFlight);
    LockHoldersConcat(s.inFlight, started);
  }

  /** Every click keeps the invariant. */
  lemma ClickInv(s: State, opts: Options, index: int, measured: real)
    requires Inv(s, opts)
    requires 0 <= index < |s.panelMarks|
    ensures Inv(AfterClick(s, opts, index, measured), opts)
  {
    if !s.animating {
      NoLockHolderIn(s.inFlight);
      if opts.selfClosing {
        if s.current == index {
          SelfClosedInv(s.(prev := None, current := -1), opts, index);
        } else if s.current == -1 {
          SelfOpenInv(s.(prev := None, current := index), opts, index, measured);
        } else {
          AccordionInv(s.(prev := Some(s.current), current := index), opts, measured);
        }
      } else if s.current != index {
        AccordionInv(s.(prev := Some(s.current), current := index), opts, measured);
      }
    }
  }

  /** Every click keeps the markers exact, and afterwards the open index lies in
      [-1, panel count); with selfClosing off an open panel is never closed. */
  lemma ClickMarkersExact(s: State, opts: Options, index: int, measured: real)
    requires MarkersExact(s)
    requires 0 <= index < |s.panelMarks| && index < |s.tabMarks|
    ensures MarkersExact(AfterClick(s, opts, index, measured))
    ensures var r := AfterClick(s, opts, index, measured);
      (!s.animating ==> -1 <= r.current < |s.panelMarks|) &&
      (!opts.selfClosing && s.current != -1 ==> r.current != -1)
  {
    var r := AfterClick(s, opts, index, measured);
    if !s.animating {
      ClickCases(s, opts, index, measured);
      assert r.tabMarks == OnlyAt(r.current, |r.tabMarks|);
      assert r.panelMarks == OnlyAt(r.current, |r.panelMarks|);
    }
  }

  /** A tween's completion keeps the invariant; it clears the lock exactly when the
      tween holds it, and then no lock holder is left. */
  lemma CompleteInv(s: State, opts: Options, k: nat)
    requires Inv(s, opts) && k < |s.inFlight|
    ensures Inv(AfterComplete(s, k), opts)
    ensures AfterComplete(s, k).animating == (s.animating && !s.inFlight[k].HoldsLock())
    ensures AfterComplete(s, k).current == s.current && AfterComplete(s, k).prev == s.prev
    ensures MarkersExact(s) ==> MarkersExact(AfterComplete(s, k))
  {
    var ts := s.inFlight;
    LockHoldersRemove(ts, k);
    forall t | t in ts[..k] + ts[k+1..] ensures t in ts {
      if t in ts[..k] {
        var j :| 0 <= j < k && ts[..k][j] == t;
        assert ts[j] == t;
      } else {
        var j :| 0 <= j < |ts[k+1..]| && ts[k+1..][j] == t;
        assert ts[k + 1 + j] == t;
      }
    }
    if ts[k].HoldsLock() {
      assert s.animating by {
        assert ts[k] in ts;
        if LockHolders(ts) == 0 { NoLockHolderIn(ts); }
      }
    }
  }

  /** Only the opening tween of an accordion switch holds the lock: once it completes
      the lock is free again, and a new click is accepted, while the previous panel's
      closing tween may still be running. */
  lemma LockFreeWhileCloseRuns(s: State, opts: Options, index: int, measured: real)
    requires Inv(s, opts) && !s.animating
    requires 0 <= index < |s.panelMarks| && index < |s.tabMarks|
    requires s.current != index && s.current != -1
    ensures var r := AfterClick(s, opts, index, measured);
      && |s.inFlight| + 1 < |r.inFlight|
      && r.inFlight[|s.inFlight|].kind == Open
      && !AfterComplete(r, |s.inFlight|).animating
      && Tween(AccordionClose, s.current, Px(0.0)) in AfterComplete(r, |s.inFlight|).inFlight
  {
    var r := AfterClick(s, opts, index, measured);
    var k := |s.inFlight|;
    ClickCases(s, opts, index, measured);
    assert r.inFlight[k+1..] == [Tween(AccordionClose, s.current, Px(0.0))];
    assert AfterComplete(r, k).inFlight == r.inFlight[..k] + r.inFlight[k+1..];
  }

  /** A completed tween leaves its panel at maxHeight as it is at completion time. */
  lemma CompleteSettlesHeight(s: State, k: nat)
    requires k < |s.inFlight| && 0 <= s.inFlight[k].panel < |s.heights|
    ensures AfterComplete(s, k).heights[s.inFlight[k].panel] == s.maxHeight
  {
  }

  /** A resize keeps the invariant and touches nothing but maxHeight. */
  lemma ResizeInv(s: State, opts: Options, equalizedHeight: real)
    requires Inv(s, opts)
    ensures Inv(AfterResize(s, opts, equalizedHeight), opts)
    ensures AfterResize(s, opts, equalizedHeight).(maxHeight := s.maxHeight) == s
    ensures MarkersExact(s) ==> MarkersExact(AfterResize(s, opts, equalizedHeight))
  {
  }
}
