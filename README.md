# Accordion index/transition state machine in Dafny

This project models the core of the Accordion widget (`assets/Accordion.js`, version 0.2.0). The
widget opens one panel at a time when its tab is clicked. With `selfClosing` on, it can also
close every panel. It tweens panel heights, and it drops clicks while a transition runs.

The model keeps the widget object's fields:
- `currentIndex`, with -1 for "none open";
- `prevIndex`, with `None` for the sentinel `false`;
- the `isAnimating` lock;
- `maxHeight`, either `auto` or a pixel value;
- `focusOnInit`;
- which tabs and which panels carry the active class;
- the height each panel was last set to;
- the height tweens that have started but not completed;
- the notifications emitted so far.

The model has two modules:

- `accordion_model.dfy`, module `AccordionModel`, holds the state machine as values. A
  `State` datatype holds the fields above, and each event is one function on it: `Initial`
  (`init` and `initDOM`), `AfterClick` (the bound click handler), `AfterClickTab` (`__clickTab`),
  `AfterSelfClosed`, `AfterSelfOpen`, `AfterAccordion` (the three transition methods),
  `AfterComplete` (the tweens' `onComplete` callbacks) and `AfterResize` (`__onWindowResize`).
  The module also holds the invariant `Inv`, the marker invariant `MarkersExact`, and the lemmas
  about all of these.
- `accordion.dfy`, module `AccordionWidget`, holds the widget object. It has the class
  `Accordion`, whose fields are updated in place. The active-class markers and the panel
  heights are arrays, one slot per element of the tab or panel collection. Each method has one
  contract per source method: `ensures View() == <event function>(old(View()))`, and it keeps
  `Valid()`. `ResolveInitialIndex` is the url-hash scan loop of `init`.

Writing to element `i` of a jQuery collection has no effect when `i` is outside the
collection: `$(coll[i])` wraps `undefined`. The model keeps this behaviour (`Put`, `Write`). As a
result, a negative `initialIndex` is kept as it is and marks nothing. The code resets only values
at or beyond the panel count. It does not clamp into `[0, panel count)`, and the model follows
the code.

The browser and the foreign libraries become parameters:
- the page's url fragment (`locationHash`);
- the height the height equalizer computes (`equalizedHeight`);
- a panel's measured height (`measured`);
- which elements the markup already marks active.

A tween's completion is an explicit event, `TweenComplete(k)`, for the k-th running tween. It
may come in any order.

## Model

| member | source | states |
|---|---|---|
| `AccordionModel.InitialIndex` | assets/Accordion.js:44-62 | With a non-empty url hash that equals some panel id, the open index is the first such panel and focusOnInit is true. Otherwise focusOnInit is false and the open index is 0 when initialIndex is at or beyond the panel count, else initialIndex itself, negative values included |
| `AccordionWidget.ResolveInitialIndex` | assets/Accordion.js:46-62 | The scan loop, which breaks on the first matching panel id, returns exactly `InitialIndex` |
| `AccordionModel.ReplaceFirstHash` | assets/Accordion.js:53 | Removing '#' takes out one character when the string has a '#' and none otherwise. A string without '#' is returned unchanged, and the count of every other character is kept |
| `AccordionModel.ReplaceFirstHashCutsFirst` | assets/Accordion.js:53 | The removed '#' is the first one: the result is the string with the character at the first '#' position cut out |
| `AccordionModel.UrlHashOfFragment` | assets/Accordion.js:53 | A fragment of the form `#id` yields the url hash `id`, and a bare `#` yields `false` |
| `AccordionModel.FirstIndexOf` | assets/Accordion.js:55-61 | It returns None exactly when no id matches. Otherwise it returns an index whose id matches, with no match before it |
| `AccordionModel.Put` | assets/Accordion.js:187-193 | A write on element i of a collection changes element i only, and changes nothing when i is outside the collection |
| `AccordionModel.InitialInv` | assets/Accordion.js:44-102 | The state after construction satisfies the invariant: the open index is below the panel count (or 0 with no panels), and maxHeight is numeric exactly when heights are equalized. The lock is free, no tween runs, prevIndex is `false`, and the open index and focusOnInit are those of `InitialIndex` |
| `AccordionModel.Initial` | assets/Accordion.js:44-102 | After construction the open index and focusOnInit are those of `InitialIndex`. The lock is free, prevIndex is `false`, no tween runs and only `initialized` has been emitted. maxHeight is the equalized height when equalizing and `auto` otherwise, and every panel is set to it. A panel or tab is active exactly when it is the open one or the markup already marked it |
| `AccordionModel.ClampInitialIndex` | assets/Accordion.js:46 | The result is below the panel count or is 0. initialIndex is changed only when it is at or beyond the count, and then to 0 |
| `AccordionModel.UrlHash` | assets/Accordion.js:53 | The url hash is `false` (None) exactly when removing '#' leaves nothing. Otherwise it is the non-empty stripped fragment |
| `AccordionModel.MarkedPut` | assets/Accordion.js:187-193 | Adding the class to element i adds i to the active set when i is an index of the collection. Removing it takes i out of the set |
| `AccordionModel.CleanMarkupGivesExactMarkers` | assets/Accordion.js:77-92 | When the markup marks nothing active, construction leaves exactly the open panel and its tab marked. Nothing is marked for a negative or out-of-range index |
| `AccordionModel.OnlyAtMarksOne` | assets/Accordion.js:91-92 | The marker pattern "only c" marks the set {c} when c is an index of the collection, and the empty set otherwise |
| `AccordionModel.ExactMarkersAreSingleton` | assets/Accordion.js:147-173 | With exact markers and an open index in [-1, n), the active panels are {currentIndex}, or none when it is -1, and the same holds for tabs. At most one panel is active |
| `AccordionModel.ClickWhileAnimatingIsDropped` | assets/Accordion.js:115-120 | A click while isAnimating is true changes nothing |
| `AccordionModel.ClickCases` | assets/Accordion.js:140-178 | Every click keeps maxHeight, focusOnInit and the number of panels and tabs. With selfClosing on and the clicked tab open, the open index becomes -1, the previous index becomes None, only that index loses its marker, and a lock-holding collapse tween starts. With nothing open, the clicked index opens, the previous index stays None, only it gains the marker, and an opening tween starts. When a different tab is open, or a tab is clicked with selfClosing off, the previous index becomes the old open index, the marker moves from it to the clicked index, no other marker changes, and an open tween and a close tween start. With selfClosing off, clicking the open tab changes nothing |
| `AccordionModel.OpenTarget` | assets/Accordion.js:216-229 | The same choice is made in animateAccordion at lines 254-271. An opening tween targets either maxHeight or the measured height. It is always a pixel value when maxHeight is numeric exactly when equalizing |
| `AccordionModel.AfterSelfClosed` | assets/Accordion.js:185-210 | animateSelfClosed sets the lock, adds one lock-holding tween, and takes the index out of the active panels and tabs. It emits `panelClosed` and leaves the indices, maxHeight and the heights unchanged |
| `AccordionModel.AfterSelfOpen` | assets/Accordion.js:212-246 | animateSelfOpen sets the lock, adds one lock-holding tween, and adds the index to the active panels and tabs (when it exists). It emits `panelOpened` with currentIndex and leaves the indices and maxHeight unchanged |
| `AccordionModel.AfterAccordion` | assets/Accordion.js:248-299 | animateAccordion sets the lock and adds exactly one lock holder among its two tweens. The active set loses prevIndex and gains currentIndex (when it exists). It emits `panelOpened` with currentIndex and leaves the indices and maxHeight unchanged |
| `AccordionModel.AfterClickTab` | assets/Accordion.js:140-178 | `__clickTab` changes nothing exactly when selfClosing is off and the open tab is clicked. Otherwise it takes the lock with one new lock holder, makes the clicked index (or -1 under selfClosing) the open one, and emits `panelClosed` for a self-close or `panelOpened(index)` otherwise. maxHeight, focusOnInit and the collection sizes are kept |
| `AccordionModel.AfterClick` | assets/Accordion.js:115-120 | A click either changes nothing, or finds the lock free and leaves it held. It emits exactly the one notification of its transition, and keeps maxHeight, focusOnInit and the collection sizes |
| `AccordionModel.AfterComplete` | assets/Accordion.js:195-294 | The onComplete callbacks at lines 195-206, 235-241, 277-283 and 289-294. An onComplete removes exactly its own tween from the running ones. The lock stays held only if it was held and the tween is an accordion close. Indices, markers, maxHeight and notifications are unchanged, and only the tween's panel changes height |
| `AccordionModel.AfterResize` | assets/Accordion.js:133-138 | A resize changes only maxHeight, which becomes the recomputed height when equalizing |
| `AccordionModel.OpenTweenTarget` | assets/Accordion.js:212-242 | An opening tween targets maxHeight, a pixel value, when heights are equalized, and the panel is first set to height 0. Otherwise it targets the height measured when the transition starts |
| `AccordionModel.SelfClosedInv` | assets/Accordion.js:185-206 | animateSelfClosed, entered with the lock free and currentIndex -1, keeps the invariant: the lock is now held by the single collapse tween |
| `AccordionModel.SelfOpenInv` | assets/Accordion.js:212-242 | animateSelfOpen, entered with the lock free and currentIndex set to the clicked index, keeps the invariant: the lock is held by the single opening tween of the open panel |
| `AccordionModel.AccordionInv` | assets/Accordion.js:248-295 | animateAccordion keeps the invariant: the opening tween holds the lock and the closing tween does not |
| `AccordionModel.ClickInv` | assets/Accordion.js:115-178 | Every click keeps the invariant |
| `AccordionModel.ClickMarkersExact` | assets/Accordion.js:140-178 | Every click keeps exactly the open panel and its tab marked. After an accepted click the open index lies in [-1, panel count). With selfClosing off, an open panel never becomes "none open" |
| `AccordionModel.LockHoldersRemove` | assets/Accordion.js:277-295 | Completing a running tween removes one lock holder exactly when that tween is a self-close or an opening tween |
| `AccordionModel.CompleteInv` | assets/Accordion.js:273-295 | A completion keeps the invariant and the markers. It clears the lock exactly when the tween is a self-close or an opening tween, and leaves currentIndex and prevIndex unchanged |
| `AccordionModel.LockFreeWhileCloseRuns` | assets/Accordion.js:273-295 | After an accordion switch, completing the opening tween frees the lock while the previous panel's closing tween is still running |
| `AccordionModel.CompleteSettlesHeight` | assets/Accordion.js:235-241 | A completed tween leaves its panel at maxHeight as maxHeight is at completion time |
| `AccordionModel.ResizeInv` | assets/Accordion.js:133-138 | A resize keeps the invariant and the markers, and changes nothing but maxHeight |
| `AccordionWidget.Write` | assets/Accordion.js:187-193 | A class or height write on element i of a collection gives `Put` of the old contents: element i becomes the value, and nothing changes when i is outside the collection |
| `AccordionWidget.Accordion.constructor` | assets/Accordion.js:22-111 | Construction gives the `Initial` state with fresh element arrays and satisfies `Valid`. The stored initialIndex option is the reset value |
| `AccordionWidget.Accordion.OnTabClick` | assets/Accordion.js:115-120 | The bound handler moves the object to `AfterClick` of its old state. While animating the object is unchanged, and exact markers stay exact |
| `AccordionWidget.Accordion.ClickTab` | assets/Accordion.js:140-178 | `__clickTab` moves the object to `AfterClickTab` of its old state and keeps `Valid` |
| `AccordionWidget.Accordion.AnimateSelfClosed` | assets/Accordion.js:185-210 | The object moves to `AfterSelfClosed`: lock set, markers of the index removed, collapse tween started, panelClosed emitted |
| `AccordionWidget.Accordion.AnimateSelfOpen` | assets/Accordion.js:212-246 | The object moves to `AfterSelfOpen`: lock set, markers added, opening tween started towards the selected height, panelOpened emitted with currentIndex |
| `AccordionWidget.Accordion.AnimateAccordion` | assets/Accordion.js:248-299 | The object moves to `AfterAccordion`: lock set, the marker moves from prevIndex to currentIndex, opening and closing tweens started, panelOpened emitted |
| `AccordionWidget.Accordion.TweenComplete` | assets/Accordion.js:195-294 | The onComplete callbacks at lines 195-206, 235-241, 277-283 and 289-294. Each moves the object to `AfterComplete`. The lock is cleared exactly for a lock-holding tween, and the markers stay exact |
| `AccordionWidget.Accordion.OnWindowResize` | assets/Accordion.js:133-138 | The object moves to `AfterResize`: it adopts the recomputed height only when equalizing heights |

## Left out

- DOM querying, ARIA `role`/`tabindex` writes and CSS `display` toggling (assets/Accordion.js:40-41, 81-83, 94-102, 201-204, 232) have no state logic, so they are not modelled. The inline height is modelled.
- TweenMax interpolation, easing and duration are not modelled: a tween is a record of its kind, element and target height. Its `onComplete` is the explicit event `TweenComplete`. TweenMax's overwriting of an older tween on the same element is not modelled: every started tween runs to its own completion, in any order. A tween on an empty selection (an out-of-range index) is taken to complete like any other, with no element to set.
- The HeightEqualizer is not part of this model. The height it computes, at construction and on every resize, is an input. Any heights the equalizer itself writes to the panels, for instance in `resetHeight()` (assets/Accordion.js:135), are not modelled: the model's panel heights record only the widget's own writes, so a resize leaves them as they were.
- A panel's measured height, `$elActivePanel.height()`, is an input.
- Focus moves, scrolling and the `window.load` handler (assets/Accordion.js:104-109, 169, 200, 237, 279) are browser UI. They are not modelled; `focusOnInit` is kept as a flag.
- Custom events are recorded in a ghost sequence, not delivered to listeners.
- `Class.extend` inheritance and the option merging of `$.extend` are not modelled. Options are given as `initialIndex`, `equalizeHeight` and `selfClosing`; the selectors, class name, duration, easing and event prefix only name things. An `initialIndex` of the wrong type (a string or a fraction) is not modelled.
- AccordionWidget.Accordion.OnTabClick: the clicked tab's index is required to be below the panel count as well as the tab count. The code indexes panels with a tab's position, and a tab without a panel is not modelled.
- AccordionWidget.Accordion.AnimateSelfClosed: public in the code, but modelled only as the click handler calls it (lock free, currentIndex already -1). A direct call during a transition would break the one-lock-holder invariant.
- AccordionWidget.Accordion.AnimateSelfOpen: modelled only as the click handler calls it (lock free, currentIndex already the index).
- AccordionWidget.Accordion.AnimateAccordion: modelled only as the click handler calls it (lock free, prevIndex set to a number). With prevIndex `false`, the code would tween an empty selection.
- AccordionModel.CleanMarkupGivesExactMarkers: the marker invariant is proved only for markup that marks nothing active. initDOM never removes an active class the markup already has, and neither does a click on another tab.
