/** CSS custom-property names: `cssRegex` (`/[^0-9a-zA-Z-_]+/`, no `g` flag), the single
    replacement that `String.prototype.replace` performs with it, and `ThemeCssVar`. */
module CssName {
  import opened Text

  /** The characters `cssRegex` does not match: digits, ASCII letters, `-` and `_`. */
  predicate IsCssChar(c: char)
  {
    '0' <= c <= '9' || 'a' <= c <= 'z' || 'A' <= c <= 'Z' || c == '-' || c == '_'
  }

  predicate AllCss(s: string) { forall i :: 0 <= i < |s| ==> IsCssChar(s[i]) }

  /** `s[i..j]` is the match `cssRegex` finds in `s`: the leftmost character outside the class,
      together with every further one up to the next valid character (the `+` is greedy). */
  ghost predicate IsFirstRun(s: string, i: int, j: int)
  {
    && 0 <= i < j <= |s|
    && AllCss(s[..i])
    && (forall k :: i <= k < j ==> !IsCssChar(s[k]))
    && (j == |s| || IsCssChar(s[j]))
  }

  lemma ValidBefore(s: string, i: int, k: int)
    requires 0 <= i <= |s| && AllCss(s[..i])
    ensures 0 <= k < i ==> IsCssChar(s[k])
  {
    if 0 <= k < i {
      assert s[..i][k] == s[k];
    }
  }

  /** There is at most one such match. */
  lemma FirstRunUnique(s: string, i: int, j: int)
    requires IsFirstRun(s, i, j)
    ensures forall i', j' :: IsFirstRun(s, i', j') ==> i' == i && j' == j
  {
    forall i', j' | IsFirstRun(s, i', j')
      ensures i' == i && j' == j
    {
      ValidBefore(s, i, i');
      ValidBefore(s, i', i);
    }
  }

  /** A string of valid characters holds no match. */
  lemma NoFirstRun(s: string)
    requires AllCss(s)
    ensures forall i, j {:trigger IsFirstRun(s, i, j)} :: !IsFirstRun(s, i, j)
  {
    forall i, j | 0 <= i < j <= |s|
      ensures !IsFirstRun(s, i, j)
    {
      assert IsCssChar(s[i]);
    }
  }

  /** The first index at or after `i` whose character `cssRegex` matches (or `|s|`). */
  function SkipValid(s: string, i: nat): (j: nat)
    requires i <= |s|
    ensures i <= j <= |s|
    ensures forall k :: i <= k < j ==> IsCssChar(s[k])
    ensures j < |s| ==> !IsCssChar(s[j])
    decreases |s| - i
  {
    if i == |s| || !IsCssChar(s[i]) then i else SkipValid(s, i + 1)
  }

  /** The end of the run of matched characters that continues at `i`. */
  function SkipInvalid(s: string, i: nat): (j: nat)
    requires i <= |s|
    ensures i <= j <= |s|
    ensures forall k :: i <= k < j ==> !IsCssChar(s[k])
    ensures j < |s| ==> IsCssChar(s[j])
    decreases |s| - i
  {
    if i == |s| || IsCssChar(s[i]) then i else SkipInvalid(s, i + 1)
  }

  /** The text `String.prototype.replace` inserts for one match when the replacement is a
      string: ECMAScript's GetSubstitution for a pattern without capture groups. `$$` stands
      for `$`, `$&` for the match, `` $` `` for the text before it and `$'` for the text after
      it; any other `$` is kept as it is. */
  function Substitution(template: string, matched: string, before: string, after: string): (r: string)
    ensures '$' !in template ==> r == template
    ensures |template| >= 2 && template[0] == '$' ==>
              var rest := Substitution(template[2..], matched, before, after);
              && (template[1] == '$' ==> r == "$" + rest)
              && (template[1] == '&' ==> r == matched + rest)
              && (template[1] == '`' ==> r == before + rest)
              && (template[1] == '\'' ==> r == after + rest)
    ensures |template| >= 2 && template[0] == '$' && template[1] !in {'$', '&', '`', '\''} ==>
              r == "$" + Substitution(template[1..], matched, before, after)
    ensures template == "$" ==> r == "$"
    ensures |template| >= 1 && template[0] != '$' ==>
              r == [template[0]] + Substitution(template[1..], matched, before, after)
    decreases |template|
  {
    if template == [] then ""
    else if template[0] == '$' && |template| >= 2 then
      var c := template[1];
      if c == '$' then "$" + Substitution(template[2..], matched, before, after)
      else if c == '&' then matched + Substitution(template[2..], matched, before, after)
      else if c == '`' then before + Substitution(template[2..], matched, before, after)
      else if c == '\'' then after + Substitution(template[2..], matched, before, after)
      else "$" + Substitution(template[1..], matched, before, after)
    else [template[0]] + Substitution(template[1..], matched, before, after)
  }

  /** `s.replace(cssRegex, replacement)`: only the first run of invalid characters is
      replaced, and a string made of valid characters comes back unchanged. */
  function ReplaceFirstRun(s: string, replacement: string): (r: string)
    ensures AllCss(s) ==> r == s
    ensures forall i, j {:trigger IsFirstRun(s, i, j)} :: IsFirstRun(s, i, j) ==>
              r == s[..i] + Substitution(replacement, s[i..j], s[..i], s[j..]) + s[j..]
  {
    var i := SkipValid(s, 0);
    if i == |s| then
      NoFirstRun(s);
      s
    else
      var j := SkipInvalid(s, i + 1);
      FirstRunUnique(s, i, j);
      s[..i] + Substitution(replacement, s[i..j], s[..i], s[j..]) + s[j..]
  }

  /** `spacing.replace(cssRegex, '')`: the spacing with its first invalid run deleted. */
  function CleanSpacing(spacing: string): (r: string)
    ensures AllCss(spacing) ==> r == spacing
    ensures forall i, j {:trigger IsFirstRun(spacing, i, j)} :: IsFirstRun(spacing, i, j) ==>
              r == spacing[..i] + spacing[j..]
  {
    ReplaceFirstRun(spacing, "")
  }

  /** The spacing argument's default value. */
  const DefaultSpacing: string := "-"

  datatype VarKind = Normal | Rgb

  /** `ThemeJs.ThemeCssVar`: "--", then "rgb-" for the RGB kind, then `param` with its first
      invalid run replaced by the cleaned spacing. */
  function ThemeCssVar(param: string, kind: VarKind, spacing: string): (r: string)
    ensures |r| >= 2 && r[..2] == "--"
    ensures kind == Rgb ==> |r| >= 6 && r[2..6] == "rgb-"
  {
    "--" + (if kind == Rgb then "rgb-" else "") + ReplaceFirstRun(param, CleanSpacing(spacing))
  }

  /** The RGB variable of a parameter is its normal variable with "rgb-" after the dashes. */
  lemma CssVarKinds(param: string, spacing: string)
    ensures ThemeCssVar(param, Rgb, spacing) == "--rgb-" + ThemeCssVar(param, Normal, spacing)[2..]
  {
  }

  /** A parameter made of valid characters passes through unchanged, whatever the spacing. */
  lemma CssVarOfValidParam(param: string, spacing: string)
    requires AllCss(param)
    ensures ThemeCssVar(param, Normal, spacing) == "--" + param
    ensures ThemeCssVar(param, Rgb, spacing) == "--rgb-" + param
  {
  }

  /** With a spacing whose cleaned form holds no `$`, the first invalid run of the parameter is
      replaced by the cleaned spacing and everything after it, further invalid runs included,
      is kept as it is. */
  lemma CssVarReplacesFirstRun(param: string, spacing: string, i: int, j: int)
    requires IsFirstRun(param, i, j)
    requires '$' !in CleanSpacing(spacing)
    ensures ThemeCssVar(param, Normal, spacing) == "--" + param[..i] + CleanSpacing(spacing) + param[j..]
  {
    var c := CleanSpacing(spacing);
    ReplaceFirstRunAt(param, c, i, j);
    assert "--" + "" == "--";
    ConcatRegroup("--", param[..i], c, param[j..]);
  }

  /** Regrouping a concatenation, stated apart so that it is proved without the facts of its
      callers in scope. */
  lemma ConcatRegroup(a: string, b: string, c: string, d: string)
    ensures a + (b + c + d) == a + b + c + d
  {
  }

  /** A replacement without `$` is inserted as it is. */
  lemma ReplaceFirstRunAt(s: string, replacement: string, i: int, j: int)
    requires IsFirstRun(s, i, j) && '$' !in replacement
    ensures ReplaceFirstRun(s, replacement) == s[..i] + replacement + s[j..]
  {
  }

  /** A spacing with at most one invalid run is cleaned to valid characters only. */
  lemma CleanSpacingValid(spacing: string, i: int, j: int)
    requires IsFirstRun(spacing, i, j) && AllCss(spacing[j..])
    ensures AllCss(CleanSpacing(spacing))
  {
    var r := CleanSpacing(spacing);
    assert r == spacing[..i] + spacing[j..];
    forall k | 0 <= k < |r|
      ensures IsCssChar(r[k])
    {
      if k < i {
        assert r[k] == spacing[..i][k];
      } else {
        assert r[k] == spacing[j..][k - i];
      }
    }
  }

  /** `ThemeCssVar("border-color", 'NORMAL')` is "--border-color". */
  lemma BorderColorExample()
    ensures ThemeCssVar("border-color", Normal, DefaultSpacing) == "--border-color"
  {
    assert SkipValid("border-color", 0) == 12;
    CssVarOfValidParam("border-color", DefaultSpacing);
  }

  /** The match of `cssRegex` in "a.b c" is the dot, and in what follows it, the space. */
  lemma DotAndSpaceRuns()
    ensures IsFirstRun("a.b c", 1, 2) && "a.b c"[..1] == "a" && "a.b c"[2..] == "b c"
    ensures IsFirstRun("b c", 1, 2) && "b c"[..1] == "b" && "b c"[2..] == "c"
    ensures AllCss("_") && AllCss("c")
  {
    assert AllCss("a.b c"[..1]);
    assert AllCss("b c"[..1]);
  }

  /** `"a.b c"` with spacing "_" becomes "--a_b c": only the first invalid run is replaced. */
  lemma FirstRunExample()
    ensures ThemeCssVar("a.b c", Normal, "_") == "--a_b c"
  {
    DotAndSpaceRuns();
    assert CleanSpacing("_") == "_";
    CssVarReplacesFirstRun("a.b c", "_", 1, 2);
  }

  lemma AllCssConcat(a: string, b: string)
    requires AllCss(a) && AllCss(b)
    ensures AllCss(a + b)
  {
    var ab := a + b;
    forall k | 0 <= k < |ab|
      ensures IsCssChar(ab[k])
    {
      if k < |a| { assert ab[k] == a[k]; } else { assert ab[k] == b[k - |a|]; }
    }
  }

  /** What a global `cssRegex` (`/[^0-9a-zA-Z-_]+/g`) would do: every run of invalid characters
      replaced by `replacement`, which itself holds only valid characters. */
  function ReplaceAllRuns(s: string, replacement: string): (r: string)
    requires AllCss(replacement)
    ensures AllCss(r)
    ensures AllCss(s) ==> r == s
    decreases |s|
  {
    var i := SkipValid(s, 0);
    if i == |s| then
      assert s[..i] == s;
      s
    else
      var j := SkipInvalid(s, i + 1);
      var rest := ReplaceAllRuns(s[j..], replacement);
      AllCssConcat(s[..i], replacement);
      AllCssConcat(s[..i] + replacement, rest);
      s[..i] + replacement + rest
  }

  /** `ThemeCssVar` with the global pattern for both replacements: the spacing loses every
      invalid character and each invalid run of the parameter becomes that spacing, so the name
      after "--" (or "--rgb-") is made of valid characters only. */
  function IntendedThemeCssVar(param: string, kind: VarKind, spacing: string): (r: string)
    ensures |r| >= 2 && r[..2] == "--"
    ensures kind == Rgb ==> |r| >= 6 && r[2..6] == "rgb-"
    ensures AllCss(r)
    ensures AllCss(param) ==> r == ThemeCssVar(param, kind, spacing)
  {
    var prefix := "--" + (if kind == Rgb then "rgb-" else "");
    assert AllCss(prefix);
    var name := ReplaceAllRuns(param, ReplaceAllRuns(spacing, ""));
    AllCssConcat(prefix, name);
    prefix + name
  }

  /** The global replacement deals with the first run as the single one does, then carries on
      after it. */
  lemma ReplaceAllRunsStep(s: string, replacement: string, i: int, j: int)
    requires AllCss(replacement) && IsFirstRun(s, i, j)
    ensures ReplaceAllRuns(s, replacement) == s[..i] + replacement + ReplaceAllRuns(s[j..], replacement)
  {
    var i' := SkipValid(s, 0);
    assert i' < |s| && SkipInvalid(s, i' + 1) == j && i' == i by {
      assert s[..i'] == s[..i'];
      if i' < |s| {
        var j' := SkipInvalid(s, i' + 1);
        assert IsFirstRun(s, i', j');
        FirstRunUnique(s, i', j');
      } else {
        NoFirstRun(s);
      }
    }
  }

  lemma ReplaceAllRunsExample()
    ensures AllCss("_") && ReplaceAllRuns("a.b c", "_") == "a_b_c"
  {
    DotAndSpaceRuns();
    ReplaceAllRunsStep("b c", "_", 1, 2);
    assert ReplaceAllRuns("b c", "_") == "b_c";
    ReplaceAllRunsStep("a.b c", "_", 1, 2);
  }

  /** The parameter "a.b c" with spacing "_": the single replacement leaves the space in the
      name. */
  lemma CssVarSecondRunKept()
    ensures ThemeCssVar("a.b c", Normal, "_") == "--a_b c"
    ensures !AllCss(ThemeCssVar("a.b c", Normal, "_"))
  {
    FirstRunExample();
    assert !IsCssChar("--a_b c"[5]);
  }

  lemma IntendedCssVarName(param: string, spacing: string, cleaned: string, name: string)
    requires AllCss(cleaned) && ReplaceAllRuns(spacing, "") == cleaned && ReplaceAllRuns(param, cleaned) == name
    ensures IntendedThemeCssVar(param, Normal, spacing) == "--" + name
  {
  }

  /** The literal text of `IntendedCssVarExample`, proved on its own for the same reason. */
  lemma IntendedNameText()
    ensures "--" + "a_b_c" == "--a_b_c"
  {
  }

  /** The global replacement turns "a.b c" with spacing "_" into "--a_b_c". */
  lemma IntendedCssVarExample()
    ensures IntendedThemeCssVar("a.b c", Normal, "_") == "--a_b_c"
  {
    ReplaceAllRunsExample();
    assert ReplaceAllRuns("_", "") == "_";
    IntendedCssVarName("a.b c", "_", "_", "a_b_c");
    IntendedNameText();
  }
}
