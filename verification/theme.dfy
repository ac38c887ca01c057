/** The theme manager's state: the registry of themes (six built in, more
    may be added or removed at run time), the key of the current theme, the
    customisation record, and what was saved to local storage. Colours and
    the CSS they drive are not modelled: a theme is known by its key and
    display name. */
module Theme {
  import opened Common
  import opened Strings
  import OrderedMap

  const MinFontSize: int := 12
  const MaxFontSize: int := 24

  datatype ThemeInfo = ThemeInfo(name: string)

  type Registry = seq<OrderedMap.Entry<string, ThemeInfo>>

  /** The built-in themes, in declaration order. */
  const BuiltIn: Registry := [
    OrderedMap.Entry("dark", ThemeInfo("Sombre")),
    OrderedMap.Entry("light", ThemeInfo("Clair")),
    OrderedMap.Entry("blue", ThemeInfo("Océan")),
    OrderedMap.Entry("purple", ThemeInfo("Mystique")),
    OrderedMap.Entry("green", ThemeInfo("Nature")),
    OrderedMap.Entry("manga", ThemeInfo("Manga Classic"))]

  datatype Customization = Customization(
    fontSize: int,
    fontFamily: string,
    borderRadius: int,
    compactMode: bool,
    animations: bool,
    blurEffects: bool,
    highContrast: bool)

  const DefaultCustomization: Customization :=
    Customization(16, "system", 8, false, true, true, false)

  /** A parsed customisation object that may carry only some of the fields. */
  datatype Patch = Patch(
    fontSize: Option<int>,
    fontFamily: Option<string>,
    borderRadius: Option<int>,
    compactMode: Option<bool>,
    animations: Option<bool>,
    blurEffects: Option<bool>,
    highContrast: Option<bool>)

  function Pick<T>(o: Option<T>, d: T): T {
    match o case Some(v) => v case None => d
  }

  /** `{ ...c, ...p }`: each field the patch carries wins, the others stay. */
  function Merge(c: Customization, p: Patch): (r: Customization)
    ensures p.fontSize.Some? ==> r.fontSize == p.fontSize.value
    ensures p.fontSize.None? ==> r.fontSize == c.fontSize
    ensures p.fontFamily.Some? ==> r.fontFamily == p.fontFamily.value
    ensures p.fontFamily.None? ==> r.fontFamily == c.fontFamily
    ensures p.borderRadius.Some? ==> r.borderRadius == p.borderRadius.value
    ensures p.borderRadius.None? ==> r.borderRadius == c.borderRadius
    ensures p.compactMode.Some? ==> r.compactMode == p.compactMode.value
    ensures p.compactMode.None? ==> r.compactMode == c.compactMode
    ensures p.animations.Some? ==> r.animations == p.animations.value
    ensures p.animations.None? ==> r.animations == c.animations
    ensures p.blurEffects.Some? ==> r.blurEffects == p.blurEffects.value
    ensures p.blurEffects.None? ==> r.blurEffects == c.blurEffects
    ensures p.highContrast.Some? ==> r.highContrast == p.highContrast.value
    ensures p.highContrast.None? ==> r.highContrast == c.highContrast
  {
    Customization(
      Pick(p.fontSize, c.fontSize), Pick(p.fontFamily, c.fontFamily),
      Pick(p.borderRadius, c.borderRadius), Pick(p.compactMode, c.compactMode),
      Pick(p.animations, c.animations), Pick(p.blurEffects, c.blurEffects),
      Pick(p.highContrast, c.highContrast))
  }

  /** The whole record as a patch: what `JSON.stringify` saves. */
  function Full(c: Customization): Patch {
    Patch(Some(c.fontSize), Some(c.fontFamily), Some(c.borderRadius), Some(c.compactMode),
          Some(c.animations), Some(c.blurEffects), Some(c.highContrast))
  }

  const EmptyPatch: Patch := Patch(None, None, None, None, None, None, None)

  /** Merging is a right-biased union: an empty patch changes nothing, a full
      record replaces everything, and merging twice is merging the second
      patch over the first. */
  lemma MergeLaws(c: Customization, d: Customization, p: Patch)
    ensures Merge(c, EmptyPatch) == c
    ensures Merge(c, Full(d)) == d
    ensures Merge(Merge(c, p), Full(d)) == d
    ensures Merge(Merge(c, p), p) == Merge(c, p)
  {
    MergeFull(c, d);
    MergeFull(Merge(c, p), d);
    MergeTwice(c, p);
  }

  lemma MergeTwice(c: Customization, p: Patch)
    ensures Merge(Merge(c, p), p) == Merge(c, p)
  {
    var m := Merge(c, p);
    var mm := Merge(m, p);
    assert mm.fontSize == m.fontSize;
    assert mm.fontFamily == m.fontFamily;
    assert mm.borderRadius == m.borderRadius;
    assert mm.compactMode == m.compactMode;
    assert mm.animations == m.animations;
    assert mm.blurEffects == m.blurEffects;
    assert mm.highContrast == m.highContrast;
  }

  lemma MergeFull(c: Customization, d: Customization)
    ensures Merge(c, Full(d)) == d
  {
  }

  /** What local storage holds: `selectedTheme` and the saved customisation. */
  datatype Storage = Storage(selectedTheme: Option<string>, customization: Option<Patch>)

  datatype ThemeState = ThemeState(
    themes: Registry,
    current: string,
    customization: Customization,
    storage: Storage)

  /** A present, non-empty string: JavaScript's truthiness of a string. */
  predicate Truthy(s: Option<string>) {
    s.Some? && s.value != ""
  }

  predicate Known(themes: Registry, key: string) {
    OrderedMap.Lookup(themes, key).Some?
  }

  /** The two themes the code never deletes. */
  predicate Protected(themes: Registry) {
    Known(themes, "dark") && Known(themes, "light")
  }

  // ----- font size -----

  /** The A+ / A- buttons: one step up to at most 24, one step down to at
      least 12. */
  function PressFontButton(fontSize: int, increase: bool): (r: int)
    ensures increase ==> r <= MaxFontSize && (fontSize < MaxFontSize ==> r == fontSize + 1)
    ensures !increase ==> r >= MinFontSize && (fontSize > MinFontSize ==> r == fontSize - 1)
    ensures MinFontSize <= fontSize <= MaxFontSize ==> MinFontSize <= r <= MaxFontSize
  {
    if increase then Min(MaxFontSize, fontSize + 1)
    else if MinFontSize >= fontSize - 1 then MinFontSize else fontSize - 1
  }

  /** Inside the range, one step up and one step down cancel out. */
  lemma FontButtonsCancel(fontSize: int)
    ensures MinFontSize <= fontSize < MaxFontSize ==>
      PressFontButton(PressFontButton(fontSize, true), false) == fontSize
    ensures MinFontSize < fontSize <= MaxFontSize ==>
      PressFontButton(PressFontButton(fontSize, false), true) == fontSize
  {
  }

  /** A saved size outside the range is not clamped when loaded, so the
      decrease button on a size of 30 gives 29. */
  lemma FontSizeOutsideRangeStays()
    ensures PressFontButton(30, false) == 29
  {
  }

  // ----- theme registry and selection -----

  /** `selectTheme`: an unknown key changes nothing. */
  function SelectTheme(st: ThemeState, key: string): (r: ThemeState)
    ensures !Known(st.themes, key) ==> r == st
    ensures Known(st.themes, key) ==> r == st.(current := key)
  {
    if !Known(st.themes, key) then st else st.(current := key)
  }

  /** `saveSettings`. */
  function SaveSettings(st: ThemeState): (r: ThemeState)
    ensures r.storage == Storage(Some(st.current), Some(Full(st.customization)))
    ensures r.themes == st.themes && r.current == st.current && r.customization == st.customization
  {
    st.(storage := Storage(Some(st.current), Some(Full(st.customization))))
  }

  /** `setTheme`: select and save a known key; an unknown one changes nothing,
      so only known keys are ever saved by it. */
  function SetTheme(st: ThemeState, key: string): (r: ThemeState)
    ensures !Known(st.themes, key) ==> r == st
    ensures Known(st.themes, key) ==> r.current == key && r.storage.selectedTheme == Some(key)
  {
    if Known(st.themes, key) then SaveSettings(SelectTheme(st, key)) else st
  }

  /** `addCustomTheme`. */
  function AddCustomTheme(themes: Registry, key: string, t: ThemeInfo): (r: Registry)
    ensures OrderedMap.Lookup(r, key) == Some(t)
    ensures forall k :: k != key ==> OrderedMap.Lookup(r, k) == OrderedMap.Lookup(themes, k)
  {
    OrderedMap.Put(themes, key, t)
  }

  /** `removeCustomTheme`: deletes any key but "dark" and "light". */
  function RemoveCustomTheme(themes: Registry, key: string): (r: Registry)
    ensures key == "dark" || key == "light" ==> r == themes
    ensures key != "dark" && key != "light" ==> !Known(r, key)
    ensures forall x :: x in r ==> x in themes
    ensures forall x :: x in themes && x.key != key ==> x in r
  {
    if key != "dark" && key != "light" then OrderedMap.Delete(themes, key) else themes
  }

  /** Whatever is added or removed, "dark" and "light" stay known. */
  lemma RegistryKeepsProtected(themes: Registry, key: string, t: ThemeInfo)
    requires Protected(themes)
    ensures Protected(AddCustomTheme(themes, key, t))
    ensures Protected(RemoveCustomTheme(themes, key))
  {
    var r := RemoveCustomTheme(themes, key);
    if key != "dark" && key != "light" {
      var d := OrderedMap.Lookup(themes, "dark").value;
      var l := OrderedMap.Lookup(themes, "light").value;
      assert OrderedMap.Entry("dark", d) in r;
      assert OrderedMap.Entry("light", l) in r;
    }
  }

  /** `loadSettings`: a saved theme is adopted only when it is a non-empty
      known key; a saved customisation is merged over the current one. */
  function LoadSettings(st: ThemeState): (r: ThemeState)
    ensures r.themes == st.themes && r.storage == st.storage
    ensures r.current != st.current ==> (Truthy(st.storage.selectedTheme) && Known(st.themes, r.current)
      && r.current == st.storage.selectedTheme.value)
    ensures Truthy(st.storage.selectedTheme) && Known(st.themes, st.storage.selectedTheme.value) ==>
      r.current == st.storage.selectedTheme.value
    ensures st.storage.customization.None? ==> r.customization == st.customization
    ensures st.storage.customization.Some? ==>
      r.customization == Merge(st.customization, st.storage.customization.value)
  {
    var current :=
      if Truthy(st.storage.selectedTheme) && Known(st.themes, st.storage.selectedTheme.value)
      then st.storage.selectedTheme.value else st.current;
    var custom := match st.storage.customization
      case Some(p) => Merge(st.customization, p)
      case None => st.customization;
    st.(current := current, customization := custom)
  }

  /** Saving and loading again gives back the same theme and customisation. */
  lemma SaveThenLoad(st: ThemeState)
    requires st.current != "" && Known(st.themes, st.current)
    ensures LoadSettings(SaveSettings(st)).current == st.current
    ensures LoadSettings(SaveSettings(st)).customization == st.customization
  {
    MergeLaws(st.customization, st.customization, EmptyPatch);
  }

  /** `setupAutoTheme` (at load and on a change of the system preference):
      without a saved theme, follow the system's dark or light preference. */
  function AutoTheme(st: ThemeState, hasMatchMedia: bool, prefersDark: bool): (r: ThemeState)
    ensures !hasMatchMedia || Truthy(st.storage.selectedTheme) ==> r == st
    ensures hasMatchMedia && !Truthy(st.storage.selectedTheme) ==>
      r == st.(current := if prefersDark then "dark" else "light")
  {
    if hasMatchMedia && !Truthy(st.storage.selectedTheme) then
      st.(current := if prefersDark then "dark" else "light")
    else st
  }

  /** `importTheme`: adopt the file's theme if it names a known one, merge its
      customisation, then save. */
  datatype ImportData = ImportData(theme: Option<string>, customization: Option<Patch>)

  function ImportTheme(st: ThemeState, data: ImportData): (r: ThemeState)
    ensures r.themes == st.themes
    ensures Truthy(data.theme) && Known(st.themes, data.theme.value) ==> r.current == data.theme.value
    ensures !(Truthy(data.theme) && Known(st.themes, data.theme.value)) ==> r.current == st.current
    ensures data.customization.None? ==> r.customization == st.customization
    ensures data.customization.Some? ==>
      r.customization == Merge(st.customization, data.customization.value)
    ensures r.storage == Storage(Some(r.current), Some(Full(r.customization)))
  {
    var current :=
      if Truthy(data.theme) && Known(st.themes, data.theme.value) then data.theme.value else st.current;
    var custom := match data.customization
      case Some(p) => Merge(st.customization, p)
      case None => st.customization;
    SaveSettings(st.(current := current, customization := custom))
  }

  /** `resetToDefault`: only when confirmed, back to "dark" and the default
      customisation, saved. */
  function ResetToDefault(st: ThemeState, confirmed: bool): (r: ThemeState)
    ensures !confirmed ==> r == st
    ensures confirmed ==> (r.current == "dark" && r.customization == DefaultCustomization
      && r.storage == Storage(Some("dark"), Some(Full(DefaultCustomization)))
      && r.themes == st.themes)
  {
    if confirmed then SaveSettings(st.(current := "dark", customization := DefaultCustomization))
    else st
  }

  /** Once the current theme is known and "dark"/"light" are protected, every
      operation but removal keeps the current theme known: the selecting
      operations here, the resetting and registering ones in
      `OtherOperationsKeepCurrentKnown`. */
  lemma OperationsKeepCurrentKnown(st: ThemeState, key: string, data: ImportData)
    requires Protected(st.themes) && Known(st.themes, st.current)
    ensures Known(SelectTheme(st, key).themes, SelectTheme(st, key).current)
    ensures Known(SetTheme(st, key).themes, SetTheme(st, key).current)
    ensures Known(LoadSettings(st).themes, LoadSettings(st).current)
    ensures Known(ImportTheme(st, data).themes, ImportTheme(st, data).current)
  {
  }

  lemma OtherOperationsKeepCurrentKnown(st: ThemeState, key: string, t: ThemeInfo,
                                        confirmed: bool, hasMatchMedia: bool, prefersDark: bool)
    requires Protected(st.themes) && Known(st.themes, st.current)
    ensures Known(ResetToDefault(st, confirmed).themes, ResetToDefault(st, confirmed).current)
    ensures Known(AutoTheme(st, hasMatchMedia, prefersDark).themes, AutoTheme(st, hasMatchMedia, prefersDark).current)
    ensures Known(AddCustomTheme(st.themes, key, t), st.current)
  {
  }

  // ----- fonts -----

  const SystemFontStack: string := "-apple-system, BlinkMacSystemFont, \"Segoe UI\", Roboto, sans-serif"

  const FontStacks: seq<OrderedMap.Entry<string, string>> := [
    OrderedMap.Entry("system", SystemFontStack),
    OrderedMap.Entry("serif", "Georgia, \"Times New Roman\", serif"),
    OrderedMap.Entry("sans-serif", "Arial, Helvetica, sans-serif"),
    OrderedMap.Entry("monospace", "\"Fira Code\", \"Courier New\", monospace"),
    OrderedMap.Entry("manga", "\"Comic Sans MS\", cursive, sans-serif")]

  /** `applyFontFamily`: the stack for a known family, else the system one. */
  function FontStack(family: string): (r: string)
    ensures OrderedMap.Lookup(FontStacks, family).None? ==> r == SystemFontStack
    ensures OrderedMap.Lookup(FontStacks, family).Some? ==> OrderedMap.Entry(family, r) in FontStacks
  {
    match OrderedMap.Lookup(FontStacks, family)
    case Some(s) => s
    case None => SystemFontStack
  }

  // ----- toggle ids -----

  /** `key.replace(/([A-Z])/g, '-$1')`: a dash before every capital. */
  function DashBeforeUpper(s: string): (r: string)
    ensures |r| >= |s|
  {
    if |s| == 0 then ""
    else (if IsUpper(s[0]) then ['-', s[0]] else [s[0]]) + DashBeforeUpper(s[1..])
  }

  /** The element id `updateUI` derives from a customisation key. */
  function ToggleId(key: string): (r: string)
    ensures forall i :: 0 <= i < |r| ==> !IsUpper(r[i])
    ensures |r| >= |key|
  {
    Lower(DashBeforeUpper(key))
  }

  predicate NoUpper(s: string) {
    forall i :: 0 <= i < |s| ==> !IsUpper(s[i])
  }

  lemma {:induction false} DashBeforeUpperConcat(a: string, b: string)
    ensures DashBeforeUpper(a + b) == DashBeforeUpper(a) + DashBeforeUpper(b)
  {
    if |a| > 0 {
      assert (a + b)[1..] == a[1..] + b;
      DashBeforeUpperConcat(a[1..], b);
    } else {
      assert a + b == b;
    }
  }

  lemma {:induction false} DashBeforeUpperNoUpper(s: string)
    requires NoUpper(s)
    ensures DashBeforeUpper(s) == s
  {
    if |s| > 0 {
      DashBeforeUpperNoUpper(s[1..]);
    }
  }

  lemma LowerNoUpper(s: string)
    requires NoUpper(s)
    ensures Lower(s) == s
  {
  }

  lemma DashOneCapital(a: string, c: char, b: string)
    requires NoUpper(a) && IsUpper(c) && NoUpper(b)
    ensures DashBeforeUpper(a + [c] + b) == a + ['-', c] + b
  {
    DashBeforeUpperConcat(a + [c], b);
    DashBeforeUpperConcat(a, [c]);
    DashBeforeUpperNoUpper(a);
    DashBeforeUpperNoUpper(b);
    assert DashBeforeUpper([c]) == ['-', c] by {
      assert [c][1..] == "";
    }
  }

  lemma LowerOneCapital(a: string, c: char, b: string)
    requires NoUpper(a) && NoUpper(b)
    ensures Lower(a + ['-', c] + b) == a + "-" + [LowerChar(c)] + b
  {
    LowerConcat(a + ['-', c], b);
    LowerConcat(a, ['-', c]);
    LowerNoUpper(a);
    LowerNoUpper(b);
  }

  /** A key with one capital between two lower-case parts becomes the two
      parts joined by a dash and the lowered capital. */
  lemma ToggleIdOneCapital(a: string, c: char, b: string)
    requires NoUpper(a) && IsUpper(c) && NoUpper(b)
    ensures ToggleId(a + [c] + b) == a + "-" + [LowerChar(c)] + b
  {
    DashOneCapital(a, c, b);
    LowerOneCapital(a, c, b);
  }

  /** A key without capitals is its own id. */
  lemma ToggleIdNoCapital(key: string)
    requires NoUpper(key)
    ensures ToggleId(key) == key
  {
    DashBeforeUpperNoUpper(key);
    LowerNoUpper(key);
  }

  /** The toggle table of `setupToggleEvents`: element id and property. */
  const ToggleTable: seq<(string, string)> := [
    ("compact-mode", "compactMode"),
    ("animations", "animations"),
    ("blur-effects", "blurEffects"),
    ("high-contrast", "highContrast")]

  lemma CompactModeId()
    ensures ToggleId("compactMode") == "compact-mode"
  {
    var a, b := "compact", "ode";
    assert NoUpper(a) && NoUpper(b);
    ToggleIdOneCapital(a, 'M', b);
    assert a + ['M'] + b == "compactMode";
    assert a + "-" + [LowerChar('M')] + b == "compact-mode";
  }

  lemma AnimationsId()
    ensures ToggleId("animations") == "animations"
  {
    assert NoUpper("animations");
    ToggleIdNoCapital("animations");
  }

  lemma BlurEffectsId()
    ensures ToggleId("blurEffects") == "blur-effects"
  {
    var a, b := "blur", "ffects";
    assert NoUpper(a) && NoUpper(b);
    ToggleIdOneCapital(a, 'E', b);
    assert a + ['E'] + b == "blurEffects";
    assert a + "-" + [LowerChar('E')] + b == "blur-effects";
  }

  lemma HighContrastId()
    ensures ToggleId("highContrast") == "high-contrast"
  {
    var a, b := "high", "ontrast";
    assert NoUpper(a) && NoUpper(b);
    ToggleIdOneCapital(a, 'C', b);
    assert a + ['C'] + b == "highContrast";
    assert a + "-" + [LowerChar('C')] + b == "high-contrast";
  }

  /** The ids `updateUI` derives from the boolean customisation keys are the
      ids the toggle listeners are attached to. */
  lemma ToggleIdsMatchTable()
    ensures |ToggleTable| == 4
    ensures ToggleId(ToggleTable[0].1) == ToggleTable[0].0
    ensures ToggleId(ToggleTable[1].1) == ToggleTable[1].0
    ensures ToggleId(ToggleTable[2].1) == ToggleTable[2].0
    ensures ToggleId(ToggleTable[3].1) == ToggleTable[3].0
  {
    CompactModeId();
    AnimationsId();
    BlurEffectsId();
    HighContrastId();
  }
}
