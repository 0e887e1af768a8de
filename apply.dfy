/** What `ApplyTheme` does to the page: which theme it reads and the `style.setProperty`
    calls it makes for that theme's entries. */
module ApplyStyle {
  import opened Text
  import opened CssName
  import opened Color
  import opened ThemeData

  /** One `document.documentElement.style.setProperty(property, value)` call. */
  datatype Assignment = Assignment(property: string, value: string)

  /** The theme `ApplyTheme` reads: the theme the name resolves to, `{}` when there is none. */
  function AppliedTheme(themes: seq<Theme>, selected: int, name: Option<string>): (t: Theme)
    requires -1 <= selected < |themes|
    ensures Given(name) && (exists j :: 0 <= j < |themes| && NameIs(themes[j], name)) ==>
              FirstNamed(themes, name, t)
    ensures Given(name) && (forall j :: 0 <= j < |themes| ==> !NameIs(themes[j], name)) ==> t == map[]
    ensures !Given(name) ==> t == (if selected == -1 then map[] else themes[selected])
  {
    match Resolved(themes, selected, name)
    case None => map[]
    case Some(x) => x
  }

  /** The calls made for one entry `[key, value]`: none for "name"; otherwise the entry's
      variable with the raw value, followed, for a `#RRGGBB` value, by its RGB variable with
      the value's decimal bytes. */
  function EntryCalls(key: string, value: string, spacing: string): (r: seq<Assignment>)
    ensures key == "name" ==> r == []
    ensures key != "name" ==> 1 <= |r| <= 2 && r[0] == Assignment(ThemeCssVar(key, Normal, spacing), value)
    ensures key != "name" ==> (|r| == 2 <==> IsHexColor(value))
    ensures key != "name" && IsHexColor(value) ==>
              r[1] == Assignment(ThemeCssVar(key, Rgb, spacing), HexToRgb(value))
  {
    if key == "name" then []
    else
      var name := ReplaceFirstRun(key, CleanSpacing(spacing));
      var normal := Assignment("--" + name, value);
      if IsHexColor(value) then [normal, Assignment("--rgb-" + name, HexToRgb(value))] else [normal]
  }

  /** The calls made for the entries whose keys are listed in `keys`, in that order. */
  function Calls(theme: Theme, keys: seq<string>, spacing: string): (r: seq<Assignment>)
    requires forall k :: k in keys ==> k in theme
    ensures |r| <= 2 * |keys|
  {
    if keys == [] then []
    else
      var last := keys[|keys| - 1];
      Calls(theme, keys[..|keys| - 1], spacing) + EntryCalls(last, theme[last], spacing)
  }

  /** `order` lists every key of `theme` exactly once: the order in which `Object.entries`
      reports them. */
  predicate EntryOrder(theme: Theme, order: seq<string>)
  {
    && (forall k :: k in order ==> k in theme)
    && (forall k :: k in theme ==> k in order)
    && (forall i, j :: 0 <= i < j < |order| ==> order[i] != order[j])
  }

  /** The loop of `ApplyTheme` over `Object.entries(theme)`: for each entry other than "name",
      one call for its variable and, for a `#RRGGBB` value, one for its RGB variable. */
  method SetProperties(theme: Theme, order: seq<string>, spacing: string) returns (calls: seq<Assignment>)
    requires EntryOrder(theme, order)
    ensures calls == Calls(theme, order, spacing)
  {
    calls := [];
    for n := 0 to |order|
      invariant calls == Calls(theme, order[..n], spacing)
    {
      var key := order[n];
      assert order[..n + 1][..n] == order[..n] && order[..n + 1][n] == key;
      assert Calls(theme, order[..n + 1], spacing) == calls + EntryCalls(key, theme[key], spacing);
      if key != "name" {
        var property := ReplaceFirstRun(key, CleanSpacing(spacing));
        calls := calls + [Assignment("--" + property, theme[key])];
        if IsHexColor(theme[key]) {
          calls := calls + [Assignment("--rgb-" + property, HexToRgb(theme[key]))];
        }
      }
    }
    assert order[..|order|] == order;
  }

  /** Entry `k` of `theme` asks for call `a`. */
  predicate Requested(theme: Theme, k: string, a: Assignment, spacing: string)
  {
    && k in theme
    && k != "name"
    && (|| a == Assignment(ThemeCssVar(k, Normal, spacing), theme[k])
        || (IsHexColor(theme[k]) && a == Assignment(ThemeCssVar(k, Rgb, spacing), HexToRgb(theme[k]))))
  }

  lemma EntryCallsMembership(theme: Theme, k: string, a: Assignment, spacing: string)
    requires k in theme
    ensures a in EntryCalls(k, theme[k], spacing) <==> Requested(theme, k, a, spacing)
  {
  }

  /** A call is among those made for `keys` exactly when one of those entries asks for it. */
  lemma {:induction false} CallsMembership(theme: Theme, keys: seq<string>, a: Assignment, spacing: string)
    requires forall k :: k in keys ==> k in theme
    ensures a in Calls(theme, keys, spacing) <==> exists k :: k in keys && Requested(theme, k, a, spacing)
    decreases |keys|
  {
    if keys != [] {
      var init, last := keys[..|keys| - 1], keys[|keys| - 1];
      assert keys == init + [last];
      CallsMembership(theme, init, a, spacing);
      EntryCallsMembership(theme, last, a, spacing);
      if a in Calls(theme, keys, spacing) && !(a in Calls(theme, init, spacing)) {
        assert last in keys && Requested(theme, last, a, spacing);
      }
      if exists k :: k in keys && Requested(theme, k, a, spacing) {
        var k :| k in keys && Requested(theme, k, a, spacing);
        if k != last {
          assert k in init;
        }
      }
    }
  }

  /** Whatever order the entries come in, the calls made for a whole theme are exactly the
      ones its entries other than "name" ask for. */
  lemma AppliedCalls(theme: Theme, order: seq<string>, spacing: string, a: Assignment)
    requires EntryOrder(theme, order)
    ensures a in Calls(theme, order, spacing) <==> exists k :: Requested(theme, k, a, spacing)
  {
    CallsMembership(theme, order, a, spacing);
  }

  /** The value of a theme's "name" entry has no effect on the calls. */
  lemma {:induction false} NameIgnored(theme: Theme, keys: seq<string>, n: string, spacing: string)
    requires "name" in theme
    requires forall k :: k in keys ==> k in theme
    ensures Calls(theme["name" := n], keys, spacing) == Calls(theme, keys, spacing)
    decreases |keys|
  {
    if keys != [] {
      NameIgnored(theme, keys[..|keys| - 1], n, spacing);
    }
  }

  /** Themes whose names agree one by one are searched alike. */
  lemma {:induction false} FindIndexSameNames(themes: seq<Theme>, others: seq<Theme>, x: Option<string>)
    requires |others| == |themes|
    requires forall j :: 0 <= j < |themes| ==> (NameIs(others[j], x) <==> NameIs(themes[j], x))
    ensures FindIndex(others, x) == FindIndex(themes, x)
    decreases |themes|
  {
    if themes != [] {
      FindIndexSameNames(themes[1..], others[1..], x);
    }
  }

  /** Setting a value other than the name on the theme `ApplyTheme` would read makes it read
      the updated theme, so the next application sets that value's variable. */
  lemma SetThenApply(themes: seq<Theme>, selected: int, name: Option<string>, param: string, value: string)
    requires -1 <= selected < |themes|
    requires Target(themes, selected, name) != -1 && param != "name"
    ensures var i := Target(themes, selected, name);
            AppliedTheme(WithValue(themes, i, param, value), selected, name) == themes[i][param := value]
  {
    var i := Target(themes, selected, name);
    var updated := WithValue(themes, i, param, value);
    FindIndexSameNames(themes, updated, name);
  }

  /** A key "rgb-primary" names the same variable as the RGB variable of a colour entry
      "primary": both entries set "--rgb-primary", and the later call wins. */
  lemma RgbVariableShared()
    ensures ThemeCssVar("rgb-primary", Normal, DefaultSpacing) == ThemeCssVar("primary", Rgb, DefaultSpacing)
  {
    assert SkipValid("primary", 0) == 7;
    CssVarOfValidParam("primary", DefaultSpacing);
    assert SkipValid("rgb-primary", 0) == 11;
    CssVarOfValidParam("rgb-primary", DefaultSpacing);
  }
}
