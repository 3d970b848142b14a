/** The Accordion widget object: the fields its methods update in place, and one
    method per handler and transition of the widget. Each method is proved to move
    the object from state old(View()) to the state the matching function of
    AccordionModel gives, and to keep the invariant Valid(). */
module AccordionWidget {
  import opened AccordionModel

  /** The url-hash scan of init: the clamped initialIndex, overridden by the first
      panel whose id equals the url hash. */
  method ResolveInitialIndex(initialIndex: int, panelIds: seq<string>, locationHash: string)
    returns (current: int, focusOnInit: bool)
    ensures (current, focusOnInit) == InitialIndex(initialIndex, panelIds, locationHash)
  {
    current := if initialIndex >= |panelIds| then 0 else initialIndex;
    focusOnInit := false;
    var urlHash := UrlHash(locationHash);
    if urlHash.Some? {
      var hash := urlHash.value;
      var i := 0;
      while i < |panelIds|
        invariant 0 <= i <= |panelIds|
        invariant hash !in panelIds[..i]
        invariant current == ClampInitialIndex(initialIndex, |panelIds|) && !focusOnInit
      {
        if panelIds[i] == hash {
          current := i;
          focusOnInit := true;
          break;
        }
        assert panelIds[..i + 1] == panelIds[..i] + [panelIds[i]];
        i := i + 1;
      }
      if focusOnInit {
        FirstMatchIsFirstIndex(panelIds, hash, current);
      } else {
        assert panelIds[..|panelIds|] == panelIds;
      }
    }
  }

  /** The index of a match with no earlier match is the first index. */
  lemma FirstMatchIsFirstIndex(xs: seq<string>, x: string, i: nat)
    requires i < |xs| && xs[i] == x && x !in xs[..i]
    ensures FirstIndexOf(xs, x) == Some(i)
  {
    assert xs[i] in xs;
  }

  /** A class or style write on element i of a jQuery collection; nothing happens
      when i is outside the collection. */
  method Write<T>(a: array<T>, i: int, v: T)
    modifies a
    ensures a[..] == Put(old(a[..]), i, v)
  {
    if 0 <= i < a.Length {
      a[i] := v;
    }
  }

  class Accordion {
    const options: Options
    const len: nat                  // the number of panels
    const urlHash: Option<string>   // None stands for `false`
    const tabActive: array<bool>    // the active class on each tab
    const panelActive: array<bool>  // the active class on each panel
    const panelHeight: array<Height>
    var currentIndex: int
    var prevIndex: Option<int>
    var isAnimating: bool
    var maxHeight: Height
    var focusOnInit: bool
    var inFlight: seq<Tween>
    ghost var events: seq<Event>

    /** The object's state as a value of the model. */
    ghost function View(): State
      reads this, tabActive, panelActive, panelHeight
    {
      State(currentIndex, prevIndex, isAnimating, maxHeight, focusOnInit,
            tabActive[..], panelActive[..], panelHeight[..], inFlight, events)
    }

    ghost predicate Valid()
      reads this, tabActive, panelActive, panelHeight
    {
      tabActive != panelActive && panelActive.Length == len && Inv(View(), options)
    }

    /** init and initDOM. panels and tabs describe the elements found in the markup,
        locationHash is the page's url fragment and equalizedHeight the height the
        height equalizer computes. */
    constructor (opts: Options, panels: seq<PanelMarkup>, tabs: seq<bool>,
                 locationHash: string, equalizedHeight: real)
      ensures Valid()
      ensures fresh(tabActive) && fresh(panelActive) && fresh(panelHeight)
      ensures len == |panels| && tabActive.Length == |tabs|
      ensures options == opts.(initialIndex := ClampInitialIndex(opts.initialIndex, |panels|))
      ensures urlHash == UrlHash(locationHash)
      ensures View() == Initial(opts, panels, tabs, locationHash, equalizedHeight)
    {
      var current, focus := ResolveInitialIndex(opts.initialIndex, Ids(panels), locationHash);
      var height := if opts.equalizeHeight then Px(equalizedHeight) else Auto;
      var tabArr := new bool[|tabs|](i requires 0 <= i < |tabs| => tabs[i]);
      var panelArr := new bool[|panels|](i requires 0 <= i < |panels| => panels[i].active);
      var heightArr := new Height[|panels|](_ => height);
      assert tabArr[..] == tabs;
      assert panelArr[..] == PanelMarks(panels);
      Write(tabArr, current, true);
      Write(panelArr, current, true);
      assert heightArr[..] == seq(|panels|, _ => height);
      options := opts.(initialIndex := ClampInitialIndex(opts.initialIndex, |panels|));
      len := |panels|;
      urlHash := UrlHash(locationHash);
      tabActive, panelActive, panelHeight := tabArr, panelArr, heightArr;
      currentIndex, prevIndex, isAnimating := current, None, false;
      maxHeight, focusOnInit := height, focus;
      inFlight, events := [], [Initialized];
      new;
      InitialInv(opts, panels, tabs, locationHash, equalizedHeight);
    }

    /** The click handler bound to every tab: a click while animating is dropped. */
    method OnTabClick(index: int, measured: real)
      requires Valid()
      requires 0 <= index < len && index < tabActive.Length
      modifies this, tabActive, panelActive, panelHeight
      ensures Valid()
      ensures View() == AfterClick(old(View()), options, index, measured)
      ensures old(isAnimating) ==> View() == old(View())
      ensures old(MarkersExact(View())) ==> MarkersExact(View())
    {
      ghost var s := View();
      ClickInv(s, options, index, measured);
      if MarkersExact(s) {
        ClickMarkersExact(s, options, index, measured);
      }
      if !isAnimating {
        ClickTab(index, measured);
      }
    }

    /** __clickTab, entered only while the lock is free. */
    method ClickTab(index: int, measured: real)
      requires Valid() && !isAnimating
      requires 0 <= index < len && index < tabActive.Length
      modifies this, tabActive, panelActive, panelHeight
      ensures Valid()
      ensures View() == AfterClickTab(old(View()), options, index, measured)
    {
      NoLockHolderIn(inFlight);
      if options.selfClosing {
        if currentIndex == index {
          prevIndex := None;
          currentIndex := -1;
          AnimateSelfClosed(index);
        } else if currentIndex == -1 {
          prevIndex := None;
          currentIndex := index;
          AnimateSelfOpen(index, measured);
        } else {
          prevIndex := Some(currentIndex);
          currentIndex := index;
          AnimateAccordion(measured);
        }
      } else if currentIndex != index {
        prevIndex := Some(currentIndex);
        currentIndex := index;
        AnimateAccordion(measured);
      }
      // clicking the open tab with selfClosing off only moves focus to its panel
    }

    /** animateSelfClosed, as the click handler calls it: after currentIndex has been
        set to -1. */
    method AnimateSelfClosed(index: int)
      requires Valid() && !isAnimating && currentIndex == -1
      modifies this, tabActive, panelActive
      ensures Valid()
      ensures View() == AfterSelfClosed(old(View()), index)
    {
      SelfClosedInv(View(), options, index);
      isAnimating := true;
      Write(tabActive, index, false);
      Write(panelActive, index, false);
      inFlight := inFlight + [Tween(SelfClose, index, Px(0.0))];
      events := events + [PanelClosed];
    }

    /** animateSelfOpen, as the click handler calls it: after currentIndex has been set
        to index. measured is the panel's height measured on entry. */
    method AnimateSelfOpen(index: int, measured: real)
      requires Valid() && !isAnimating && currentIndex == index
      modifies this, tabActive, panelActive, panelHeight
      ensures Valid()
      ensures View() == AfterSelfOpen(old(View()), options, index, measured)
    {
      SelfOpenInv(View(), options, index, measured);
      var height := measured;
      isAnimating := true;
      Write(tabActive, index, true);
      Write(panelActive, index, true);
      var target := Px(height);
      if options.equalizeHeight {
        target := maxHeight;
        Write(panelHeight, index, Px(0.0));
      }
      inFlight := inFlight + [Tween(Open, index, target)];
      events := events + [PanelOpened(currentIndex)];
    }

    /** animateAccordion: the marker moves from prevIndex to currentIndex, the current
        panel is tweened open and the previous one closed. */
    method AnimateAccordion(measured: real)
      requires Valid() && !isAnimating && prevIndex.Some?
      modifies this, tabActive, panelActive, panelHeight
      ensures Valid()
      ensures View() == AfterAccordion(old(View()), options, measured)
    {
      AccordionInv(View(), options, measured);
      var from := prevIndex.value;
      isAnimating := true;
      Write(tabActive, from, false);
      Write(tabActive, currentIndex, true);
      Write(panelActive, from, false);
      Write(panelActive, currentIndex, true);
      var target := Px(measured);
      if options.equalizeHeight {
        target := maxHeight;
        Write(panelHeight, currentIndex, Px(0.0));
      }
      inFlight := inFlight + [Tween(Open, currentIndex, target), Tween(AccordionClose, from, Px(0.0))];
      events := events + [PanelOpened(currentIndex)];
    }

    /** The onComplete callback of the k-th running tween. */
    method TweenComplete(k: nat)
      requires Valid() && k < |inFlight|
      modifies this, panelHeight
      ensures Valid()
      ensures View() == AfterComplete(old(View()), k)
      ensures isAnimating == (old(isAnimating) && !old(inFlight[k]).HoldsLock())
      ensures old(MarkersExact(View())) ==> MarkersExact(View())
    {
      CompleteInv(View(), options, k);
      var t := inFlight[k];
      if t.HoldsLock() {
        isAnimating := false;
      }
      Write(panelHeight, t.panel, maxHeight);
      inFlight := inFlight[..k] + inFlight[k+1..];
    }

    /** __onWindowResize: equalizedHeight is the height the equalizer recomputes. */
    method OnWindowResize(equalizedHeight: real)
      requires Valid()
      modifies this
      ensures Valid()
      ensures View() == AfterResize(old(View()), options, equalizedHeight)
    {
      ResizeInv(View(), options, equalizedHeight);
      if options.equalizeHeight {
        maxHeight := Px(equalizedHeight);
      }
    }
  }

  /** Three panels, initialIndex 1, selfClosing on: panel 1 starts open; clicking
      its tab closes everything, clicking it again reopens it, and clicking tab 2
      then switches from panel 1 to panel 2. */
  method ThreePanelWalkthrough()
  {
    var panels := [PanelMarkup("a", false), PanelMarkup("b", false), PanelMarkup("c", false)];
    var w := new Accordion(Options(1, false, true), panels, [false, false, false], "", 0.0);
    assert w.currentIndex == 1 && !w.focusOnInit;
    assert w.panelActive[..] == [false, true, false];

    w.OnTabClick(1, 0.0);
    assert w.currentIndex == -1 && w.prevIndex == None && w.isAnimating;
    assert w.panelActive[..] == [false, false, false];
    w.OnTabClick(2, 0.0);
    assert w.currentIndex == -1;
    w.TweenComplete(0);
    assert !w.isAnimating;

    w.OnTabClick(1, 40.0);
    assert w.currentIndex == 1 && w.prevIndex == None;
    assert w.panelActive[..] == [false, true, false];
    w.TweenComplete(0);

    w.OnTabClick(2, 40.0);
    assert w.currentIndex == 2 && w.prevIndex == Some(1);
    assert w.panelActive[..] == [false, false, true];
  }
}
