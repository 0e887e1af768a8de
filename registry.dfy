/** `ThemeJs`: the list of themes, the selected index, and the operations that change them or
    read them. The source keeps both as static fields of one class; here they are the fields
    of one object. */
module Registry {
  import opened Text
  import opened CssName
  import opened Color
  import opened Shorthand
  import opened ThemeData
  import opened ApplyStyle

  class ThemeJs {
    /** `Themes`: every theme, in the order it was added. */
    var themes: seq<Theme>
    /** `SelectedTheme`: the index of the current theme, -1 when none is selected. */
    var selected: int

    ghost predicate Valid()
      reads this
    {
      -1 <= selected < |themes|
    }

    /** No themes and no selection. */
    constructor ()
      ensures Valid()
      ensures themes == [] && selected == -1
    {
      themes := [];
      selected := -1;
    }

    /** `CurrentTheme()`: the selected theme, `{}` when none is selected. */
    function CurrentTheme(): (t: Theme)
      reads this
      requires Valid()
      ensures selected == -1 ==> t == map[]
      ensures selected != -1 ==> t == themes[selected]
    {
      if selected == -1 then map[] else themes[selected]
    }

    /** `SetCurrentTheme(name)`: selects the first theme with that name, or nothing (-1) when
        no theme has it. */
    method SetCurrentTheme(name: string)
      requires Valid()
      modifies this`selected
      ensures Valid()
      ensures selected == -1 <==> forall j :: 0 <= j < |themes| ==> !NameIs(themes[j], Some(name))
      ensures selected != -1 ==>
                NameIs(themes[selected], Some(name))
                && forall j :: 0 <= j < selected ==> !NameIs(themes[j], Some(name))
    {
      selected := FindIndex(themes, Some(name));
    }

    /** `CreateTheme(name, setCurrent)`: appends `{ name }` and selects it when asked to. */
    method CreateTheme(name: string, setCurrent: bool)
      requires Valid()
      modifies this
      ensures Valid()
      ensures themes == old(themes) + [map["name" := name]]
      ensures selected == if setCurrent then |themes| - 1 else old(selected)
    {
      themes := themes + [map["name" := name]];
      if setCurrent {
        selected := |themes| - 1;
      }
    }

    /** `AddTheme(theme, setCurrent)`: appends the theme and selects it when asked to. */
    method AddTheme(theme: Theme, setCurrent: bool)
      requires Valid()
      modifies this
      ensures Valid()
      ensures themes == old(themes) + [theme]
      ensures selected == if setCurrent then |themes| - 1 else old(selected)
    {
      themes := themes + [theme];
      if setCurrent {
        selected := |themes| - 1;
      }
    }

    /** `Clear()`: no themes and no selection. */
    method Clear()
      modifies this
      ensures Valid()
      ensures themes == [] && selected == -1
    {
      selected := -1;
      themes := [];
    }

    /** `LoadTheme(theme, setCurrent)`: a truthy candidate is appended (and selected when asked
        to) and the answer is true; a falsy one (None) changes nothing and the answer is false. */
    method LoadTheme(theme: Option<Theme>, setCurrent: bool) returns (loaded: bool)
      requires Valid()
      modifies this
      ensures Valid()
      ensures loaded <==> theme.Some?
      ensures themes == old(themes) + (if loaded then [theme.value] else [])
      ensures selected == if loaded && setCurrent then |themes| - 1 else old(selected)
    {
      if theme.Some? {
        themes := themes + [theme.value];
        if setCurrent {
          selected := |themes| - 1;
        }
        return true;
      }
      return false;
    }

    /** `SetThemeValue(param, value, themeName)`: sets `param` on the current theme when no name
        is given, otherwise on the first theme with that name; nothing happens when there is no
        such theme. No other theme and no other key changes. The answer is the value when the
        current theme was written, `undefined` (None) otherwise. */
    method SetThemeValue(param: string, value: string, themeName: Option<string>)
      returns (written: Option<string>)
      requires Valid()
      modifies this`themes
      ensures Valid()
      ensures themes == WithValue(old(themes), Target(old(themes), selected, themeName), param, value)
      ensures written == if !Given(themeName) && selected != -1 then Some(value) else None
    {
      if !Given(themeName) && selected == -1 {
        return None;
      }
      if !Given(themeName) {
        themes := themes[selected := CurrentTheme()[param := value]];
        return Some(value);
      }
      var i := FindIndex(themes, themeName);
      if i != -1 {
        themes := themes[i := themes[i][param := value]];
      }
      return None;
    }

    /** `SetThemeTransition(param, trans, themeName)`: stores the transition shorthand under
        `param`, on the same theme `SetThemeValue` would change, with the same answer. */
    method SetThemeTransition(param: string, trans: Transition, themeName: Option<string>)
      returns (written: Option<string>)
      requires Valid()
      modifies this`themes
      ensures Valid()
      ensures themes ==
                WithValue(old(themes), Target(old(themes), selected, themeName), param, TransitionValue(trans))
      ensures written == if !Given(themeName) && selected != -1 then Some(TransitionValue(trans)) else None
    {
      written := SetThemeValue(param, TransitionValue(trans), themeName);
    }

    /** `SetThemeAnimation(param, anim, themeName)`: stores the animation shorthand under
        `param`, on the same theme `SetThemeValue` would change, with the same answer. */
    method SetThemeAnimation(param: string, anim: Animation, themeName: Option<string>)
      returns (written: Option<string>)
      requires Valid()
      modifies this`themes
      ensures Valid()
      ensures themes ==
                WithValue(old(themes), Target(old(themes), selected, themeName), param, AnimationValue(anim))
      ensures written == if !Given(themeName) && selected != -1 then Some(AnimationValue(anim)) else None
    {
      written := SetThemeValue(param, AnimationValue(anim), themeName);
    }

    /** `ApplyTheme(name, spacing)`: the `setProperty` calls made, in order, for the theme it
        reads, its entries arriving in `order`. */
    method ApplyTheme(name: Option<string>, spacing: string, order: seq<string>) returns (calls: seq<Assignment>)
      requires Valid()
      requires EntryOrder(AppliedTheme(themes, selected, name), order)
      ensures calls == Calls(AppliedTheme(themes, selected, name), order, spacing)
    {
      var theme: Theme;
      if Given(name) {
        var i := FindIndex(themes, name);
        theme := if i == -1 then map[] else themes[i];
      } else {
        theme := CurrentTheme();
      }
      assert theme == AppliedTheme(themes, selected, name);
      calls := SetProperties(theme, order, spacing);
    }
  }

  /** The first half of the repository's test: "DarkTheme" created as current and filled in,
      by default and by name. */
  method DarkThemeSteps(js: ThemeJs)
    requires js.Valid() && js.themes == []
    modifies js
    ensures js.Valid() && js.selected == 0
    ensures js.themes == [map["name" := "DarkTheme", "white" := "#fff", "black" := "#000", "border" := "#FF0000"]]
  {
    ghost var dark: Theme := map["name" := "DarkTheme"];
    js.CreateTheme("DarkTheme", true);
    assert js.themes == [dark] && js.selected == 0;
    var _ := js.SetThemeValue("white", "#fff", None);
    dark := dark["white" := "#fff"];
    assert js.themes == [dark];
    var _ := js.SetThemeValue("black", "#000", None);
    dark := dark["black" := "#000"];
    assert js.themes == [dark] && NameIs(dark, Some("DarkTheme"));
    var _ := js.SetThemeValue("border", "#FF0000", Some("DarkTheme"));
  }

  /** The second half: "WhiteTheme" created without being selected and filled in by name. */
  method WhiteThemeSteps(js: ThemeJs, dark: Theme)
    requires js.Valid() && js.selected == 0 && js.themes == [dark] && NameIs(dark, Some("DarkTheme"))
    modifies js
    ensures js.Valid() && js.selected == 0
    ensures js.themes == [dark, map["name" := "WhiteTheme", "white" := "#fff", "black" := "#000"]]
  {
    ghost var white: Theme := map["name" := "WhiteTheme"];
    js.CreateTheme("WhiteTheme", false);
    assert js.themes == [dark, white] && js.selected == 0;
    assert !NameIs(dark, Some("WhiteTheme")) && NameIs(white, Some("WhiteTheme"));
    var _ := js.SetThemeValue("white", "#fff", Some("WhiteTheme"));
    white := white["white" := "#fff"];
    assert js.themes == [dark, white];
    assert NameIs(white, Some("WhiteTheme"));
    var _ := js.SetThemeValue("black", "#000", Some("WhiteTheme"));
  }

  /** The scenario of the repository's test, from a fresh registry: two themes, values set on
      the current theme and by name, and a transition stored on the current theme, still
      "DarkTheme", as "10s ease 0s", with the default delay. */
  method CreationScenario() returns (themes: seq<Theme>, selected: int)
    ensures selected == 0
    ensures themes == [
              map["name" := "DarkTheme", "white" := "#fff", "black" := "#000", "border" := "#FF0000",
                  "defaultTrans" := "10s ease 0s"],
              map["name" := "WhiteTheme", "white" := "#fff", "black" := "#000"]]
  {
    var js := new ThemeJs();
    DarkThemeSteps(js);
    WhiteThemeSteps(js, js.themes[0]);
    TransitionEaseExample();
    var _ := js.SetThemeTransition("defaultTrans", Transition(10, Some(Ease), None, None), None);
    themes, selected := js.themes, js.selected;
  }
}
