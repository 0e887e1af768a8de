/** Themes and the lookups the registry performs on its list of them. */
module ThemeData {
  import opened Text

  /** `Theme`: an object of string values keyed by string; by convention it has a "name". */
  type Theme = map<string, string>

  /** `val.name === x`, with None for `undefined`: a theme without a "name" key matches
      only `undefined`. */
  predicate NameIs(t: Theme, x: Option<string>)
  {
    match x
    case None => "name" !in t
    case Some(n) => "name" in t && t["name"] == n
  }

  /** `themeName` is truthy: present and not the empty string. */
  predicate Given(themeName: Option<string>)
  {
    themeName.Some? && themeName.value != ""
  }

  /** `themes.findIndex(val => val.name === x)`: the first matching index, or -1 when no
      theme matches. */
  function FindIndex(themes: seq<Theme>, x: Option<string>): (i: int)
    ensures -1 <= i < |themes|
    ensures i == -1 <==> forall j :: 0 <= j < |themes| ==> !NameIs(themes[j], x)
    ensures i != -1 ==> NameIs(themes[i], x) && forall j :: 0 <= j < i ==> !NameIs(themes[j], x)
  {
    if themes == [] then -1
    else if NameIs(themes[0], x) then 0
    else
      var k := FindIndex(themes[1..], x);
      if k == -1 then -1 else k + 1
  }

  /** After a theme is appended, a search finds the same theme as before when there was one,
      and otherwise the new theme exactly when it has the name sought. */
  lemma {:induction false} FindIndexAppend(themes: seq<Theme>, t: Theme, x: Option<string>)
    ensures FindIndex(themes + [t], x) ==
              if FindIndex(themes, x) != -1 then FindIndex(themes, x)
              else if NameIs(t, x) then |themes|
              else -1
    decreases |themes|
  {
    if themes != [] {
      assert (themes + [t])[1..] == themes[1..] + [t];
      FindIndexAppend(themes[1..], t, x);
    }
  }

  /** `t` is the first of `themes` whose name is `x`: what `themes.find(val => val.name === x)`
      returns. */
  ghost predicate FirstNamed(themes: seq<Theme>, x: Option<string>, t: Theme)
  {
    exists i :: 0 <= i < |themes| && themes[i] == t && NameIs(themes[i], x)
                && forall j :: 0 <= j < i ==> !NameIs(themes[j], x)
  }

  /** The index of the theme that `SetThemeValue`, `SetThemeTransition`, `SetThemeAnimation`
      and `ApplyTheme` act on, or -1 for none: the current theme when no name is given,
      otherwise the first theme with that name. */
  function Target(themes: seq<Theme>, selected: int, themeName: Option<string>): (i: int)
    requires -1 <= selected < |themes|
    ensures -1 <= i < |themes|
    ensures !Given(themeName) ==> i == selected
    ensures Given(themeName) ==>
              (i == -1 <==> forall j :: 0 <= j < |themes| ==> !NameIs(themes[j], themeName))
    ensures Given(themeName) && i != -1 ==>
              NameIs(themes[i], themeName) && forall j :: 0 <= j < i ==> !NameIs(themes[j], themeName)
  {
    if Given(themeName) then FindIndex(themes, themeName) else selected
  }

  /** `themes[i][param] = value` for a theme index, nothing for -1: one key of one theme
      changes, every other theme and every other key stays as it was. */
  function WithValue(themes: seq<Theme>, i: int, param: string, value: string): (r: seq<Theme>)
    requires -1 <= i < |themes|
    ensures |r| == |themes|
    ensures forall j :: 0 <= j < |r| && j != i ==> r[j] == themes[j]
    ensures i != -1 ==> r[i].Keys == themes[i].Keys + {param} && r[i][param] == value
    ensures i != -1 ==> forall k :: k in themes[i] && k != param ==> r[i][k] == themes[i][k]
  {
    if i == -1 then themes else themes[i := themes[i][param := value]]
  }

  /** The theme whose JSON text `ThemeToJson` returns, None where it returns "", as the code is
      written: a given name with no selection gives none, a given name otherwise gives the
      current theme whatever its name, and no name (`undefined` or "") gives the first theme
      whose name is that same `undefined` or "". */
  function ThemeToJsonSource(themes: seq<Theme>, selected: int, themeName: Option<string>): (r: Option<Theme>)
    requires -1 <= selected < |themes|
    ensures Given(themeName) ==> r == (if selected == -1 then None else Some(themes[selected]))
    ensures !Given(themeName) ==>
              (r.None? <==> forall j :: 0 <= j < |themes| ==> !NameIs(themes[j], themeName))
    ensures !Given(themeName) && r.Some? ==> FirstNamed(themes, themeName, r.value)
  {
    if Given(themeName) && selected == -1 then None
    else if Given(themeName) then Some(themes[selected])
    else
      var i := FindIndex(themes, themeName);
      if i == -1 then None else Some(themes[i])
  }

  /** The theme a name resolves to: the first theme with the given name, or the current theme
      when no name is given; None when there is none. `ApplyTheme` reads this theme as the code
      is written, and it is also the theme `ThemeToJson`'s documentation describes. */
  function Resolved(themes: seq<Theme>, selected: int, themeName: Option<string>)
    : (r: Option<Theme>)
    requires -1 <= selected < |themes|
    ensures Given(themeName) ==>
              (r.Some? <==> exists j :: 0 <= j < |themes| && NameIs(themes[j], themeName))
    ensures Given(themeName) && r.Some? ==> FirstNamed(themes, themeName, r.value)
    ensures !Given(themeName) ==> r == (if selected == -1 then None else Some(themes[selected]))
  {
    var i := Target(themes, selected, themeName);
    if i == -1 then None else Some(themes[i])
  }

  /** With themes "Dark" and "Light" and "Dark" selected, `ThemeToJson("Light")` serializes
      "Dark" and `ThemeToJson()` gives ""; the documented behaviour, `Resolved`, gives "Light" and "Dark". */
  lemma ThemeToJsonIgnoresName()
    ensures var dark: Theme := map["name" := "Dark"];
            var light: Theme := map["name" := "Light"];
            && ThemeToJsonSource([dark, light], 0, Some("Light")) == Some(dark)
            && Resolved([dark, light], 0, Some("Light")) == Some(light)
            && ThemeToJsonSource([dark, light], 0, None) == None
            && Resolved([dark, light], 0, None) == Some(dark)
  {
    var dark: Theme := map["name" := "Dark"];
    var light: Theme := map["name" := "Light"];
    assert !NameIs(dark, Some("Light"));
    assert NameIs([dark, light][1], Some("Light"));
  }
}
