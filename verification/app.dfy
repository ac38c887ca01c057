/** The application coordinator: the managers are created in a fixed order,
    each in its own error boundary; the theme button cycles through the
    registered themes in `Object.keys` order; the status report says which
    managers exist. The pinch handler would clamp the zoom to [0.5, 3], but
    it is never registered: the gesture wiring throws before reaching it. */
module App {
  import opened Common
  import OrderedMap
  import Theme
  import Gestures

  // ----- theme cycling -----

  /** The index arithmetic of `toggleTheme`: the key after the current one,
      wrapping around, or the first when the current key is not registered.
      With no key at all the current key is kept. */
  function NextKey(keys: seq<string>, current: string): string {
    if |keys| == 0 then current
    else
      var idx := IndexOf(keys, current);
      // `(idx + 1) % length`, where `idx + 1` lies in [0, length]
      keys[if idx + 1 == |keys| then 0 else idx + 1]
  }

  /** The key `toggleTheme` moves to. With no key at all the index is NaN and
      nothing is selected. */
  function NextThemeKey(keys: seq<string>, current: string): (r: Option<string>)
    ensures |keys| == 0 <==> r.None?
    ensures r.Some? ==> r.value in keys
    ensures |keys| > 0 && current !in keys ==> r == Some(keys[0])
    ensures |keys| > 0 && keys[|keys| - 1] == current && NoDup(keys) ==> r == Some(keys[0])
    ensures forall i :: 0 <= i < |keys| - 1 && keys[i] == current && NoDup(keys) ==> r == Some(keys[i + 1])
  {
    if |keys| == 0 then None else Some(NextKey(keys, current))
  }

  /** `toggleTheme` applied `k` times. */
  function Cycle(keys: seq<string>, current: string, k: nat): string
    decreases k
  {
    if k == 0 then current else Cycle(keys, NextKey(keys, current), k - 1)
  }

  /** On distinct keys, the key after position `i` is at position `i + 1`,
      wrapping around. */
  lemma NextKeyAt(keys: seq<string>, i: nat)
    requires NoDup(keys) && i < |keys|
    ensures NextKey(keys, keys[i]) == keys[if i + 1 == |keys| then 0 else i + 1]
  {
    assert IndexOf(keys, keys[i]) == i;
  }

  /** On distinct keys, `k <= |keys|` presses from position `i` reach position
      `i + k`, wrapping around once. */
  lemma {:induction false} CycleWrap(keys: seq<string>, i: nat, k: nat)
    requires NoDup(keys) && i < |keys| && k <= |keys|
    ensures Cycle(keys, keys[i], k) == keys[if i + k < |keys| then i + k else i + k - |keys|]
    decreases k
  {
    if k > 0 {
      NextKeyAt(keys, i);
      var j := if i + 1 == |keys| then 0 else i + 1;
      assert Cycle(keys, keys[i], k) == Cycle(keys, keys[j], k - 1);
      CycleWrap(keys, j, k - 1);
    }
  }

  /** Pressing the theme button once per registered theme comes back to the
      starting theme. */
  lemma CycleReturns(keys: seq<string>, current: string)
    requires NoDup(keys) && current in keys
    ensures Cycle(keys, current, |keys|) == current
  {
    CycleWrap(keys, IndexOf(keys, current), |keys|);
  }

  /** `toggleTheme`: without a theme manager nothing happens; otherwise the
      key after the current one in `Object.keys(themes)` becomes the current,
      saved theme. */
  function ToggleTheme(theme: Option<Theme.ThemeState>): (r: Option<Theme.ThemeState>)
    ensures theme.None? ==> r.None?
    ensures theme.Some? && |theme.value.themes| == 0 ==> r == theme
    ensures theme.Some? && |theme.value.themes| > 0 ==>
      var next := NextThemeKey(OrderedMap.ObjectKeys(theme.value.themes), theme.value.current).value;
      r.Some? && r.value.current == next && r.value.storage.selectedTheme == Some(next)
  {
    match theme
    case None => None
    case Some(t) =>
      match NextThemeKey(OrderedMap.ObjectKeys(t.themes), t.current)
      case None => theme
      case Some(k) => Some(Theme.SetTheme(t, k))
  }

  // ----- zoom -----

  const MinZoom: real := 0.5
  const MaxZoom: real := 3.0

  /** The zoom the pinch handler of `setupGestureIntegration` would set: the
      scale clamped to [0.5, 3]. The handler is registered only after the
      swipe handlers, whose registration throws (see `StepOutcome`), so no
      pinch reaches it. */
  function ClampZoom(scale: real): (z: real)
    ensures MinZoom <= z <= MaxZoom
    ensures MinZoom <= scale <= MaxZoom ==> z == scale
    ensures scale < MinZoom ==> z == MinZoom
    ensures scale > MaxZoom ==> z == MaxZoom
  {
    if scale < MinZoom then MinZoom else if scale > MaxZoom then MaxZoom else scale
  }

  /** The gesture classifier has already clamped the scale to [0.5, 5]; the
      zoom clamp makes that first clamp irrelevant. */
  lemma ZoomOfPinch(scale: real)
    ensures ClampZoom(Gestures.ClampScale(scale)) == ClampZoom(scale)
  {
  }

  // ----- initialisation -----

  datatype ManagerName = Performance | ThemeMgr | Pwa | Gesture | Search

  const InitializationOrder: seq<ManagerName> := [Performance, ThemeMgr, Pwa, Gesture, Search]

  /** The key order of the `managers` object, which `getStatus` follows. */
  const StatusOrder: seq<ManagerName> := [Pwa, Gesture, Search, Performance, ThemeMgr]

  /** What happens when a manager is initialised: its class is not loaded,
      its constructor throws, or it is constructed. */
  datatype Availability = Undefined | ConstructorThrows | Constructs

  datatype Outcome = Outcome(present: bool, warned: bool)

  /** One step of `initializeManager`. A constructed manager is present; the
      gesture manager is then wired to the reader through an `on` method
      that the gesture manager does not have, so that step throws after the
      assignment and is reported as a warning. */
  function StepOutcome(name: ManagerName, a: Availability): (o: Outcome)
    ensures o.present <==> a == Constructs
    ensures o.warned <==> a == ConstructorThrows || (a == Constructs && name == Gesture)
  {
    match a
    case Undefined => Outcome(false, false)
    case ConstructorThrows => Outcome(false, true)
    case Constructs => Outcome(true, name == Gesture)
  }

  function Warns(avail: ManagerName -> Availability): ManagerName -> bool {
    n => StepOutcome(n, avail(n)).warned
  }

  /** The coordinator after `init`: the managers that are non-null, whether
      it finished, and the steps that logged a warning. */
  datatype AppState = AppState(present: set<ManagerName>, initialized: bool, warnings: seq<ManagerName>)

  lemma EveryManagerInOrder(n: ManagerName)
    ensures n in InitializationOrder && n in StatusOrder
  {
    match n
    case Performance => assert InitializationOrder[0] == n;
    case ThemeMgr => assert InitializationOrder[1] == n;
    case Pwa => assert InitializationOrder[2] == n;
    case Gesture => assert InitializationOrder[3] == n;
    case Search => assert InitializationOrder[4] == n;
  }

  /** `init`: every manager is attempted in order whatever happened to the
      previous ones; a manager is present exactly when it was constructed;
      the warnings list the failing steps in order. `finalSetupThrows` stands
      for an error in the global handlers or wiring that follow. */
  method InitApp(avail: ManagerName -> Availability, finalSetupThrows: bool) returns (app: AppState)
    ensures forall n :: n in app.present <==> avail(n) == Constructs
    ensures app.warnings == Filter(InitializationOrder, Warns(avail))
    ensures app.initialized <==> !finalSetupThrows
  {
    var present, warnings := RunSteps(InitializationOrder, avail);
    forall n ensures n in InitializationOrder { EveryManagerInOrder(n); }
    app := AppState(present, !finalSetupThrows, warnings);
  }

  /** The `for ... of` loop of `init` over a given order. */
  method RunSteps(order: seq<ManagerName>, avail: ManagerName -> Availability)
    returns (present: set<ManagerName>, warnings: seq<ManagerName>)
    ensures forall n :: n in present <==> n in order && avail(n) == Constructs
    ensures warnings == Filter(order, Warns(avail))
  {
    present := {};
    warnings := [];
    var i := 0;
    while i < |order|
      invariant 0 <= i <= |order|
      invariant forall n :: n in present <==> n in order[..i] && avail(n) == Constructs
      invariant warnings == Filter(order[..i], Warns(avail))
    {
      var name := order[i];
      var o := StepOutcome(name, avail(name));
      if o.present {
        present := present + {name};
      }
      if o.warned {
        warnings := warnings + [name];
      }
      FilterSnoc(order, i, Warns(avail));
      assert order[..i + 1] == order[..i] + [name];
      i := i + 1;
    }
    assert order[..i] == order;
  }

  /** Filtering one more element of a prefix. */
  lemma FilterSnoc<T>(s: seq<T>, i: nat, p: T -> bool)
    requires i < |s|
    ensures Filter(s[..i + 1], p) == Filter(s[..i], p) + (if p(s[i]) then [s[i]] else [])
  {
    assert s[..i + 1] == s[..i] + [s[i]];
    FilterConcat(s[..i], [s[i]], p);
    FilterCons(s[i], [], p);
    assert [s[i]] + [] == [s[i]];
  }

  datatype Features = Features(pwa: bool, gestures: bool, search: bool, performance: bool, themes: bool)

  datatype Status = Status(initialized: bool, managers: seq<(ManagerName, bool)>, features: Features)

  /** `getStatus`: for each manager key, in the object's order, whether it is
      non-null, and the same facts again as features. */
  function GetStatus(app: AppState): (s: Status)
    ensures s.initialized == app.initialized
    ensures |s.managers| == |StatusOrder|
    ensures forall i :: 0 <= i < |StatusOrder| ==>
      s.managers[i].0 == StatusOrder[i] && (s.managers[i].1 <==> StatusOrder[i] in app.present)
    ensures s.features == Features(Pwa in app.present, Gesture in app.present, Search in app.present,
                                   Performance in app.present, ThemeMgr in app.present)
  {
    Status(app.initialized,
           seq(|StatusOrder|, i requires 0 <= i < |StatusOrder| => (StatusOrder[i], StatusOrder[i] in app.present)),
           Features(Pwa in app.present, Gesture in app.present, Search in app.present,
                    Performance in app.present, ThemeMgr in app.present))
  }

  /** Filtering five elements of which only the fourth passes. */
  lemma FilterOnlyFourth<T>(s: seq<T>, p: T -> bool)
    requires |s| == 5
    requires !p(s[0]) && !p(s[1]) && !p(s[2]) && p(s[3]) && !p(s[4])
    ensures Filter(s, p) == [s[3]]
  {
    var e := s[4..];
    assert Filter(e, p) == [] by { assert e == [s[4]] + e[1..] && |e[1..]| == 0; FilterCons(s[4], e[1..], p); }
    var d := s[3..];
    assert d == [s[3]] + e;
    FilterCons(s[3], e, p);
    var c := s[2..];
    assert c == [s[2]] + d;
    FilterCons(s[2], d, p);
    var b := s[1..];
    assert b == [s[1]] + c;
    FilterCons(s[1], c, p);
    assert s == [s[0]] + b;
    FilterCons(s[0], b, p);
  }

  function AllConstruct(n: ManagerName): Availability { Constructs }

  /** With every class loaded and every constructor succeeding, every manager
      is reported present, yet the gesture step is reported as failed. */
  method AllManagersLoaded() returns (app: AppState)
    ensures forall n :: n in app.present
    ensures app.warnings == [Gesture]
    ensures app.initialized
  {
    app := InitApp(AllConstruct, false);
    OnlyGestureWarns();
  }

  /** With every constructor succeeding, only the gesture step warns. */
  lemma OnlyGestureWarns()
    ensures Filter(InitializationOrder, Warns(AllConstruct)) == [Gesture]
  {
    var w := Warns(AllConstruct);
    forall n ensures w(n) == StepOutcome(n, Constructs).warned {
      assert w(n) == StepOutcome(n, AllConstruct(n)).warned;
    }
    FilterOnlyFourth(InitializationOrder, w);
  }
}
