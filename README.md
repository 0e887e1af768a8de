# theme.js in Dafny

theme.js keeps a list of named themes in a browser page. A theme maps parameter names to CSS
values. A `ThemeJs` registry holds the list and the index of the selected theme, and it lets
callers do the following:

- create, add, load and clear themes, and select one;
- set a plain value, a `transition` shorthand or an `animation` shorthand on the current theme
  or on a named one;
- apply a theme to the page. For every entry other than `name`, this sets a CSS custom property
  `--<param>`. When the value is a `#RRGGBB` colour, it also sets `--rgb-<param>` to the
  colour's `R,G,B` bytes.

The model has seven modules, one per file:

| file | module | what it holds |
|---|---|---|
| `text.dfy` | `Text` | JavaScript text conventions the code relies on: optional values, the decimal text of a whole number, `Array.prototype.toString` on numbers, and `split`/join as the inverses the formatters are checked against |
| `css_name.dfy` | `CssName` | `cssRegex` and the one replacement a non-global `String.prototype.replace` makes with it, including the `$` patterns of a replacement string; `ThemeCssVar` |
| `color.dfy` | `Color` | the colour test of `ApplyTheme` and `hexToRgb`, modelled as `parseInt(…, 16)`, a big-endian `setUint32` and a byte read-back |
| `shorthand.dfy` | `Shorthand` | the `transition` and `animation` values built by `SetThemeTransition` and `SetThemeAnimation`, with JavaScript's `\|\|` defaults (0 and "" are falsy) |
| `theme.dfy` | `ThemeData` | themes as maps, `findIndex`/`find` by name, the theme an operation targets, the single-key update, and the theme `ThemeToJson` serializes |
| `apply.dfy` | `ApplyStyle` | the theme `ApplyTheme` reads and the `setProperty` calls it makes |
| `registry.dfy` | `Registry` | the class `ThemeJs`: static fields `Themes` and `SelectedTheme` become the fields `themes` and `selected`; the static methods that change them become methods, `CurrentTheme` a function reading them, and `ApplyTheme` a method returning its calls. `ThemeCssVar` and `hexToRgb` read no field and are module functions (`CssName.ThemeCssVar`, `Color.HexToRgb`); `ThemeToJson` reads `Themes` and `SelectedTheme`, and its model `ThemeData.ThemeToJsonSource` takes both as arguments |

The page itself is not modelled. `ApplyTheme` returns the list of `setProperty(property, value)`
calls it would make, in order. The order in which `Object.entries` reports a theme's keys is a
parameter.

Some behaviour differs between the code and its documentation. The model follows the code in
each case:

- `cssRegex` has no `g` flag, so only the first run of invalid characters in a parameter name is
  replaced. `"a.b c"` with spacing `"_"` becomes `"--a_b c"`, not `"--a_b_c"`.
- `SetThemeAnimation` writes a given delay without its unit. The expression
  `anim.delay || '0' + 's'` groups as `anim.delay || ('0s')`.
- `ThemeToJson(name)` serializes the current theme rather than the named one. `ThemeToJson()`
  looks for a theme without a name rather than returning the current theme.
- The repository's test expects `'10s ease '` for a transition without a delay. The code writes
  `"10s ease 0s"`, and `Registry.CreationScenario` states that value.
- The same test passes a `cubicBezier` object that the code never reads
  (`Shorthand.CubicBezierObjectIgnored`).

## Model

| member | source | states |
|---|---|---|
| Text.NatToString | src/index.ts:158 | a number renders as decimal digits only, with a leading `0` exactly for zero |
| Text.ParseNatToString | src/index.ts:158 | reading the decimal text of a number back gives the number |
| Text.NumbersToString | src/index.ts:156 | `timingFuncVal.toString()` holds only digits and commas, and is empty exactly for an empty list |
| Text.NumbersRoundTrip | src/index.ts:156 | splitting a non-empty `toString()` list at its commas and reading each piece gives back the list |
| CssName.FirstRunUnique | src/index.ts:6 | a string has at most one first maximal run of characters outside `[0-9a-zA-Z-_]` |
| CssName.IsCssChar | src/index.ts:6 | the characters outside `cssRegex`'s class: digits, ASCII letters, `-` and `_`; no contract of its own, it is the alphabet of `FirstRunUnique`, `ReplaceFirstRun` and `ReplaceAllRuns` |
| CssName.Substitution | src/index.ts:140 | a replacement string without `$` is inserted as it is; `$$` gives `$`, `$&` the match, `` $` `` the text before it and `$'` the text after it, and any other `$` (a final one included) is kept, as ECMAScript's GetSubstitution requires |
| CssName.ReplaceFirstRun | src/index.ts:6 | `replace(cssRegex, r)` leaves a valid string unchanged, and otherwise replaces exactly the first invalid run and keeps everything after it |
| CssName.CleanSpacing | src/index.ts:140 | the spacing loses its first invalid run and keeps the rest |
| CssName.ThemeCssVar | src/index.ts:139-141 | the name starts with `--`, followed by `rgb-` for the RGB kind |
| CssName.CssVarKinds | src/index.ts:139-141 | the RGB name of a parameter is its normal name with `rgb-` after the dashes |
| CssName.CssVarOfValidParam | src/index.ts:139-141 | a parameter of valid characters passes through unchanged, whatever the spacing |
| CssName.CssVarReplacesFirstRun | src/index.ts:139-141 | for a cleaned spacing without `$`, the first invalid run of the parameter becomes the cleaned spacing, and later runs are kept |
| CssName.CleanSpacingValid | src/index.ts:140 | a spacing with a single invalid run is cleaned to valid characters |
| CssName.BorderColorExample | src/index.ts:139-141 | `"border-color"` gives `"--border-color"` |
| CssName.FirstRunExample | src/index.ts:139-141 | `"a.b c"` with `"_"` gives `"--a_b c"` |
| CssName.CssVarSecondRunKept | src/index.ts:6 | the name built for `"a.b c"` still holds an invalid character |
| CssName.ReplaceAllRuns | src/index.ts:6 | with a valid replacement, replacing every invalid run leaves only valid characters, and a valid string is unchanged |
| CssName.ReplaceAllRunsStep | src/index.ts:6 | the global replacement handles the first run as the single one does, then continues after it |
| CssName.IntendedThemeCssVar | src/index.ts:139-141 | with the global pattern the whole name is valid characters and agrees with `ThemeCssVar` on valid parameters |
| CssName.IntendedCssVarExample | src/index.ts:139-141 | with the global pattern `"a.b c"` and `"_"` give `"--a_b_c"` |
| Color.HexValue | src/index.ts:221 | the value of n hexadecimal digits is below 16^n |
| Color.HexValueConcat | src/index.ts:221 | reading two digit strings one after the other shifts the first by the second's length |
| Color.IsHexColor | src/index.ts:208 | `/^#[0-9A-F]{6}$/i`: seven characters, `#` then six hexadecimal digits of either case; no contract of its own, it is the condition of `EntryCalls` and the precondition of `HexToRgb` |
| Color.Uint32Bytes | src/index.ts:219-222 | four bytes, each below 256, that recompose big-endian to the value modulo 2^32 |
| Color.HexColorBytes | src/index.ts:218-225 | for `#RRGGBB`, the first byte is 0 and the others are the values of RR, GG and BB |
| Color.HexToRgb | src/index.ts:218-225 | `hexToRgb`: bytes 1-3 of `setUint32(parseInt(hex.substring(1), 16))` as decimal text joined by commas; no contract of its own, its meaning is stated by `HexToRgbPieces`, `HexColorBytes` and `HexToRgbRoundTrip` |
| Color.HexToRgbPieces | src/index.ts:224 | the result is three decimal numbers separated by single commas |
| Color.HexToRgbRoundTrip | src/index.ts:218-225 | splitting the result and reading the pieces gives the colour's three bytes |
| Color.HexToRgbRed | src/index.ts:218-225 | `"#FF0000"` gives `"255,0,0"` |
| Shorthand.TimingName | src/index.ts:8 | every timing keyword is non-empty and has no space and no parenthesis |
| Shorthand.NumberOr | src/index.ts:158 | a truthy number gives its decimal text, which reads back as the number; 0 or none gives the default |
| Shorthand.CubicBezierSuffix | src/index.ts:153-156 | the suffix is present exactly for cubic-bezier with a non-empty list, and is parenthesised; its inside reads back as the list |
| Shorthand.TimingText | src/index.ts:158 | `timingFunc \|\| ''`: the keyword's name, or "" without one; no contract of its own, used by `TransitionFields` and `AnimationSplit` |
| Shorthand.TransitionValue | src/index.ts:153-158 | `transVal` for a transition always ends in `s`, the unit of its delay; its fields and their read-back are stated by `TransitionFields` and `TransitionRoundTrip` |
| Shorthand.TransitionFields | src/index.ts:158 | the value is three space-separated fields: duration with `s`, timing function with suffix, delay with `s` |
| Shorthand.TransitionRoundTrip | src/index.ts:158 | the fields read back as the duration and the delay, 0 for a missing delay |
| Shorthand.TransitionWithoutBezier | src/index.ts:153-158 | without cubic-bezier, or with it but without values, no parenthesis appears |
| Shorthand.CubicBezierObjectIgnored | src/__tests__/test.ts:17-22 | the test's cubic-bezier transition, whose values sit under `cubicBezier`, gets no suffix: its middle field is just `cubic-bezier`, whatever the delay |
| Shorthand.TransitionEaseExample | src/index.ts:158 | `{duration: 10, timingFunc: 'ease'}` gives `"10s ease 0s"` |
| Shorthand.BezierSuffixExample | src/index.ts:153-156 | values `[1,0,1,0]` give `"(1,0,1,0)"` |
| Shorthand.TransitionBezierExample | src/index.ts:153-158 | a cubic-bezier transition gives `"2s cubic-bezier(1,0,1,0) 5s"` |
| Shorthand.TransitionNoTimingExample | src/index.ts:158 | a missing timing function leaves two spaces |
| Shorthand.IterationText | src/index.ts:184 | `IterationCount \|\| 'infinite'`: the count's text when it is a non-zero number, otherwise `infinite`; no contract of its own, its defaults are stated by `AnimationZeroIsAbsent` |
| Shorthand.StringOr | src/index.ts:184 | `x \|\| fallback` for a string: the string when present and non-empty, otherwise the fallback; no contract of its own, used by `AnimationFields` and `AnimationSplit` |
| Shorthand.AnimationValue | src/index.ts:179-184 | `transVal` for an animation, as written; no contract of its own, its meaning is stated by `AnimationSplit` (its eight fields), `AnimationDelayUnit` (the unit only on the default delay) and `AnimationZeroIsAbsent` |
| Shorthand.AnimationSplit | src/index.ts:184 | when the free-text fields hold no space, the value splits into exactly its eight fields in order |
| Shorthand.AnimationDelayUnit | src/index.ts:184 | the value ends in `s` exactly when the delay is absent or 0 |
| Shorthand.AnimationZeroIsAbsent | src/index.ts:184 | a duration, delay or iteration count of 0 renders like an absent one |
| Shorthand.AnimationTesteExample | src/index.ts:184 | an infinite animation named `Teste` of 2 seconds gives `"infinite normal none running Teste 2s  0s"` |
| Shorthand.AnimationBareDelayExample | src/index.ts:184 | a delay of 3 is written `3`, without its unit |
| Shorthand.IntendedAnimationSplit | src/index.ts:184 | the corrected value has the same first seven fields, and its eighth is the delay with `s` |
| Shorthand.IntendedAnimationValue | src/index.ts:184 | the corrected `transVal` always ends in `s`; its fields are stated by `IntendedAnimationSplit` and `IntendedAnimationDelay` |
| Shorthand.IntendedAnimationDelay | src/index.ts:184 | in the corrected value the delay field always ends in `s` and reads back as the delay |
| Shorthand.IntendedBareDelayExample | src/index.ts:184 | with the correction a delay of 3 is written `3s` |
| ThemeData.FindIndex | src/index.ts:49 | `findIndex` by name gives -1 exactly when no theme matches, and otherwise the first match |
| ThemeData.NameIs | src/index.ts:49 | `val.name === x`, with None for `undefined`; no contract of its own, it is the match condition of `FindIndex`, `FirstNamed` and `Target` |
| ThemeData.Given | src/index.ts:121-124 | the truthiness of `themeName`: present and not ""; no contract of its own, it chooses the branch of `Target`, `ThemeToJsonSource` and `Resolved` |
| ThemeData.FindIndexAppend | src/index.ts:57-67 | after an append, a search finds the earlier match if there was one, and otherwise the new theme exactly when its name matches |
| ThemeData.Target | src/index.ts:120-130 | with no name, the current index; with a name, -1 exactly when no theme has it, and otherwise the first theme with it |
| ThemeData.WithValue | src/index.ts:125-129 | one key of one theme is set, and every other theme and key stays as it was |
| ThemeData.ThemeToJsonSource | src/index.ts:98-111 | with a name, the current theme (none when nothing is selected); without one, the first stored theme whose name is absent or "", none when there is no such theme |
| ThemeData.Resolved | src/index.ts:93-98 | with a name, a theme exactly when one has that name, and then the first stored theme with it; without one, the current theme; this is the documented `ThemeToJson` lookup and the one `ApplyTheme` performs (lines 201-203) |
| ThemeData.ThemeToJsonIgnoresName | src/index.ts:98-111 | with "Dark" selected, the name "Light" yields "Dark", and no name yields nothing, where the documented behaviour gives "Light" and "Dark" |
| ApplyStyle.AppliedTheme | src/index.ts:201-203 | with a name, the first stored theme with that name (`find`), `{}` when none has it; without one, the current theme, `{}` when none is selected |
| ApplyStyle.EntryCalls | src/index.ts:206-209 | no call for `name`; otherwise the `ThemeCssVar` normal name with the raw value, then for a hex colour exactly one more call with the RGB name and `hexToRgb` |
| ApplyStyle.Calls | src/index.ts:205-211 | the calls for the listed entries in order, at most two per entry; which calls they are is stated by `CallsMembership` and `AppliedCalls`, and the loop is proved to compute it by `SetProperties` |
| ApplyStyle.SetProperties | src/index.ts:205-211 | the loop makes, in entry order, the calls of each entry |
| ApplyStyle.CallsMembership | src/index.ts:205-211 | a call is made exactly when some listed entry asks for it |
| ApplyStyle.AppliedCalls | src/index.ts:205-211 | whatever the entry order, the calls for a theme are exactly those its entries other than `name` ask for |
| ApplyStyle.NameIgnored | src/index.ts:206 | the value of the `name` entry does not affect the calls |
| ApplyStyle.SetThenApply | src/index.ts:120-130 | setting a value other than the name on the theme `ApplyTheme` reads makes it read the updated theme |
| ApplyStyle.RgbVariableShared | src/index.ts:207-209 | an entry `rgb-primary` and the RGB name of a colour entry `primary` are the same property |
| Registry.ThemeJs.constructor | src/index.ts:31-34 | no themes and no selection |
| Registry.ThemeJs.CurrentTheme | src/index.ts:40-42 | the selected theme, or `{}` when none is selected |
| Registry.ThemeJs.SetCurrentTheme | src/index.ts:48-50 | the selection becomes the first theme with the name, or -1 when there is none |
| Registry.ThemeJs.CreateTheme | src/index.ts:57-61 | appends `{name}` and selects it exactly when asked to |
| Registry.ThemeJs.AddTheme | src/index.ts:63-67 | appends the theme and selects it exactly when asked to |
| Registry.ThemeJs.Clear | src/index.ts:72-75 | no themes and no selection |
| Registry.ThemeJs.LoadTheme | src/index.ts:83-91 | true exactly for a truthy candidate, which is appended and selected when asked to; a falsy candidate changes nothing |
| Registry.ThemeJs.SetThemeValue | src/index.ts:120-130 | the new list is the old one with the value set on the targeted theme; nothing changes when there is no target; the answer is the value exactly when the current theme was written |
| Registry.ThemeJs.SetThemeTransition | src/index.ts:149-167 | as `SetThemeValue`, with the transition value, and the same answer |
| Registry.ThemeJs.SetThemeAnimation | src/index.ts:175-193 | as `SetThemeValue`, with the animation value, and the same answer |
| Registry.ThemeJs.ApplyTheme | src/index.ts:200-212 | the calls are those of the theme `ApplyTheme` reads, in entry order |
| Registry.CreationScenario | src/__tests__/test.ts:3-40 | the test's steps leave the two themes with exactly the values the code writes, and the first one selected |

## Left out

- The page: `document.documentElement.style` is not modelled. `ApplyTheme` returns its calls
  instead. When two calls name the same property, the page keeps the later one; that is not
  stated.
- The order of `Object.entries` (integer-like keys first, then insertion order) is not computed.
  It is a parameter that lists each key once.
- `JSON.stringify` is not modelled. `ThemeToJson` is modelled by the theme it serializes, and
  "" is None.
- Registry.ThemeJs.AddTheme: themes are held by value. The source stores the caller's object,
  so the caller's later changes to that object show up in the registry. That aliasing is not
  modelled. The same holds for `LoadTheme`, and for the theme that `find` returns.
- Registry.ThemeJs.LoadTheme: the candidate is `Option<Theme>`, with None for every falsy value.
  Truthy values that are not objects are accepted by the source but are not modelled.
- Theme values are strings. Values of other types that a loaded object may carry are not
  modelled, and neither are keys inherited from a prototype.
- Numbers are whole and non-negative (`nat`): durations, delays, bezier values and iteration
  counts. Fractions such as the test's `0.5`, negative numbers and NaN are not modelled, nor is
  the exponent notation JavaScript uses for numbers from 10^21 up.
- Text.NatToString: writes the exact digits of any `nat`. Past 2^53 JavaScript numbers are
  doubles, printed with the shortest digits that read back as the same double (`2**60` prints
  `1152921504606847000`), and most larger whole numbers are not JavaScript numbers at all. The
  model is exact only up to 2^53.
- ThemeData.WithValue: the key `__proto__` is treated as an ordinary key. In the source,
  assigning to `theme["__proto__"]` on a theme made by `CreateTheme` calls the prototype setter,
  which ignores a string, so nothing is stored and `ApplyTheme` later sets no `--__proto__`;
  the model stores it and emits that call.
- Color.HexToRgb: only `#RRGGBB` input is modelled. Its one caller tests for that pattern
  first. What `parseInt` does with other text is not modelled.
- The array-typed variants that `ThemeAnimation` declares for `direction`, `fillMode` and
  `playState` are not modelled. These fields are plain strings.
- `spacing` is a plain string; its default `-` is `CssName.DefaultSpacing`.
- `cbVal += "(" + cbVal + …` prepends the empty string, so it is modelled as `"(" + …`.
- The repository's test file is modelled by `Registry.CreationScenario`, which states the state
  the code produces from the test's steps up to the `defaultTrans` transition, and by
  `Shorthand.CubicBezierObjectIgnored`, which states what the cubic-bezier step writes for any
  whole delay. The step itself is not run on the registry, because its delay `0.5` is not a
  whole number.

## Findings

| source | as written | input that shows it | evidently intended | confidence | as-written member | corrected member |
|---|---|---|---|---|---|---|
| src/index.ts:6 | `cssRegex` has no `g` flag, so `replace` changes only the first invalid run | parameter `"a.b c"`, spacing `"_"` gives `"--a_b c"` | every invalid run replaced, giving `"--a_b_c"` | medium, not executed | CssName.CssVarSecondRunKept | CssName.IntendedThemeCssVar |
| src/index.ts:184 | `anim.delay \|\| '0' + 's'` adds the unit only to the default | delay 3 gives `"… linear 3"` | `(anim.delay \|\| '0') + 's'`, as on line 158, giving `"… linear 3s"` | high, not executed | Shorthand.AnimationBareDelayExample | Shorthand.IntendedAnimationDelay |
| src/index.ts:99-105 | a given name returns the current theme; no name searches for a theme whose name is `undefined` | themes "Dark", "Light", "Dark" selected: `ThemeToJson("Light")` gives Dark and `ThemeToJson()` gives "" | the named theme, or the current one when no name is given | high, not executed | ThemeData.ThemeToJsonIgnoresName | ThemeData.Resolved |

The registry methods store and read what the code computes. `ApplyTheme` reads its theme as the
documented `ThemeToJson` would (`ApplyStyle.AppliedTheme`).
