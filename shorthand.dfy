/** The CSS `transition` and `animation` shorthand values that `SetThemeTransition` and
    `SetThemeAnimation` build (`transVal`), with JavaScript's `||` defaults. */
module Shorthand {
  import opened Text

  /** `ThemeTiming`: the timing-function keywords the descriptors may name. */
  datatype Timing =
    | Ease | EaseIn | EaseOut | EaseInOut | Linear
    | StepStart | StepEnd | CubicBezier | Step | Frames

  function TimingName(t: Timing): (name: string)
    ensures name != "" && ' ' !in name && '(' !in name
  {
    match t
    case Ease => "ease"
    case EaseIn => "ease-in"
    case EaseOut => "ease-out"
    case EaseInOut => "ease-in-out"
    case Linear => "linear"
    case StepStart => "step-start"
    case StepEnd => "step-end"
    case CubicBezier => "cubic-bezier"
    case Step => "step"
    case Frames => "frames"
  }

  /** `ThemeTransition`; the numbers are whole seconds and bezier coordinates. */
  datatype Transition = Transition(
    duration: nat,
    timingFunc: Option<Timing>,
    timingFuncVal: Option<seq<nat>>,
    delay: Option<nat>)

  /** `number | 'infinite'`. */
  datatype Iterations = Count(n: nat) | Infinite

  /** `ThemeAnimation`, with its fields spelled as declared (`IterationCount`, `Name`). */
  datatype Animation = Animation(
    delay: Option<nat>,
    direction: Option<string>,
    duration: Option<nat>,
    fillMode: Option<string>,
    IterationCount: Option<Iterations>,
    Name: Option<string>,
    playState: Option<string>,
    timingFunc: Option<Timing>,
    timingFuncVal: Option<seq<nat>>)

  /** An optional number is truthy when it is present and not 0. */
  predicate NumberGiven(x: Option<nat>) { x.Some? && x.value != 0 }

  /** An optional string is truthy when it is present and not empty. */
  predicate StringGiven(x: Option<string>) { x.Some? && x.value != "" }

  /** `(x || fallback)` for an optional number: the number's decimal text when it is truthy. */
  function NumberOr(x: Option<nat>, fallback: string): (r: string)
    ensures NumberGiven(x) ==> r != "" && ParseNat(r) == Some(x.value) && AllDigits(r)
    ensures !NumberGiven(x) ==> r == fallback
  {
    if NumberGiven(x) then
      ParseNatToString(x.value);
      NatToString(x.value)
    else fallback
  }

  /** `(x || fallback)` for an optional string. */
  function StringOr(x: Option<string>, fallback: string): string
  {
    if StringGiven(x) then x.value else fallback
  }

  /** `(timingFunc || '')`. */
  function TimingText(t: Option<Timing>): string
  {
    match t
    case None => ""
    case Some(f) => TimingName(f)
  }

  /** `cbVal`: the parenthesised, comma-joined bezier values, present exactly when the timing
      function is cubic-bezier and the values are a non-empty list; its inside reads back as
      those values. */
  function CubicBezierSuffix(timingFunc: Option<Timing>, values: Option<seq<nat>>): (cb: string)
    ensures cb != "" <==> timingFunc == Some(CubicBezier) && values.Some? && values.value != []
    ensures cb != "" ==> |cb| >= 2 && cb[0] == '(' && cb[|cb| - 1] == ')'
                         && ParseNumbers(cb[1..|cb| - 1]) == Some(values.value)
    ensures ' ' !in cb
  {
    if timingFunc == Some(CubicBezier) && values.Some? && |values.value| != 0 then
      var list := NumbersToString(values.value);
      NumbersRoundTrip(values.value);
      assert ("(" + list + ")")[1..|list| + 1] == list;
      "(" + list + ")"
    else ""
  }

  /** `transVal` in `SetThemeTransition`. */
  function TransitionValue(t: Transition): (v: string)
    ensures |v| >= 2 && v[|v| - 1] == 's'
  {
    NatToString(t.duration) + "s " + TimingText(t.timingFunc)
      + CubicBezierSuffix(t.timingFunc, t.timingFuncVal) + " " + NumberOr(t.delay, "0") + "s"
  }

  lemma TransitionShape(d: string, tf: string, cb: string, l: string)
    ensures d + "s " + tf + cb + " " + l + "s" == JoinWith([d + "s", tf + cb, l + "s"], ' ')
  {
    var x := [d + "s", tf + cb, l + "s"];
    assert JoinWith(x[1..], ' ') == x[1] + " " + x[2] by { assert x[1..][1..] == x[2..]; }
  }

  /** A transition value is three space-separated fields: the duration with "s", the timing
      function with its suffix, and the delay (0 when absent or 0) with "s". */
  lemma TransitionFields(t: Transition)
    ensures Split(TransitionValue(t), ' ') == [
              NatToString(t.duration) + "s",
              TimingText(t.timingFunc) + CubicBezierSuffix(t.timingFunc, t.timingFuncVal),
              NumberOr(t.delay, "0") + "s"]
  {
    var d, tf := NatToString(t.duration), TimingText(t.timingFunc);
    var cb, l := CubicBezierSuffix(t.timingFunc, t.timingFuncVal), NumberOr(t.delay, "0");
    DigitsExclude(d, ' ');
    if NumberGiven(t.delay) { DigitsExclude(l, ' '); }
    TransitionShape(d, tf, cb, l);
    var parts := [d + "s", tf + cb, l + "s"];
    assert forall i :: 0 <= i < 3 ==> ' ' !in parts[i];
    SplitJoinWith(parts, ' ');
  }

  /** Reading the fields back gives the duration and the delay, 0 standing for an absent one. */
  lemma TransitionRoundTrip(t: Transition)
    ensures var f := Split(TransitionValue(t), ' ');
            && |f| == 3 && |f[0]| >= 2 && f[0][|f[0]| - 1] == 's' && |f[2]| >= 2 && f[2][|f[2]| - 1] == 's'
            && ParseNat(f[0][..|f[0]| - 1]) == Some(t.duration)
            && ParseNat(f[2][..|f[2]| - 1]) == Some(if NumberGiven(t.delay) then t.delay.value else 0)
  {
    TransitionFields(t);
    var d := NatToString(t.duration);
    ParseNatToString(t.duration);
    assert (d + "s")[..|d|] == d;
    var l := NumberOr(t.delay, "0");
    assert (l + "s")[..|l|] == l;
    if !NumberGiven(t.delay) {
      assert ParseNat("0") == Some(0);
    }
  }

  /** Without cubic-bezier, or with cubic-bezier but no values (as when the values are passed
      under another field name), no parenthesised suffix appears anywhere in the value. */
  lemma TransitionWithoutBezier(t: Transition)
    requires t.timingFunc != Some(CubicBezier) || t.timingFuncVal.None? || t.timingFuncVal == Some([])
    ensures '(' !in TransitionValue(t)
  {
    var d := NatToString(t.duration);
    var l := NumberOr(t.delay, "0");
    DigitsExclude(d, '(');
    if NumberGiven(t.delay) { DigitsExclude(l, '('); }
    assert TransitionValue(t) == d + "s " + TimingText(t.timingFunc) + " " + l + "s";
  }

  /** The test's `{duration: 2, timingFunc: 'cubic-bezier', cubicBezier: [...]}`: the values
      sit in a field the code does not read, so the value holds no bezier suffix. */
  lemma CubicBezierObjectIgnored(delay: Option<nat>)
    ensures '(' !in TransitionValue(Transition(2, Some(CubicBezier), None, delay))
    ensures var f := Split(TransitionValue(Transition(2, Some(CubicBezier), None, delay)), ' ');
            |f| == 3 && f[1] == "cubic-bezier"
  {
    var t := Transition(2, Some(CubicBezier), None, delay);
    TransitionWithoutBezier(t);
    TransitionFields(t);
  }

  /** `{duration: 10, timingFunc: 'ease'}` gives "10s ease 0s": the delay defaults to 0. */
  lemma TransitionEaseExample()
    ensures TransitionValue(Transition(10, Some(Ease), None, None)) == "10s ease 0s"
  {
    assert NatToString(10) == "10";
  }

  lemma ShortListText()
    ensures NumbersToString([0]) == "0" && NumbersToString([1, 0]) == "1,0"
  {
    assert [1, 0][1..] == [0];
  }

  lemma BezierListText()
    ensures NumbersToString([1, 0, 1, 0]) == "1,0,1,0"
  {
    ShortListText();
    assert NumbersToString([0, 1, 0]) == "0,1,0" by { assert [0, 1, 0][1..] == [1, 0]; }
    assert [1, 0, 1, 0][1..] == [0, 1, 0];
  }

  lemma BezierSuffixOf(values: seq<nat>)
    requires values != []
    ensures CubicBezierSuffix(Some(CubicBezier), Some(values)) == "(" + NumbersToString(values) + ")"
  {
  }

  lemma BezierSuffixExample()
    ensures CubicBezierSuffix(Some(CubicBezier), Some([1, 0, 1, 0])) == "(1,0,1,0)"
  {
    BezierSuffixOf([1, 0, 1, 0]);
    BezierListText();
  }

  lemma TransitionBezierPieces()
    ensures TransitionValue(Transition(2, Some(CubicBezier), Some([1, 0, 1, 0]), Some(5)))
            == "2" + "s " + "cubic-bezier" + CubicBezierSuffix(Some(CubicBezier), Some([1, 0, 1, 0]))
               + " " + "5" + "s"
  {
  }

  /** The literal text of `TransitionBezierExample`, proved apart from the facts about the
      value. */
  lemma TransitionBezierText()
    ensures "2" + "s " + "cubic-bezier" + "(1,0,1,0)" + " " + "5" + "s" == "2s cubic-bezier(1,0,1,0) 5s"
  {
    assert "2" + "s " + "cubic-bezier" == "2s cubic-bezier";
    assert "2s cubic-bezier" + "(1,0,1,0)" == "2s cubic-bezier(1,0,1,0)";
  }

  /** The cubic-bezier transition of the tests, with a whole-second delay, gives
      "2s cubic-bezier(1,0,1,0) 5s". */
  lemma TransitionBezierExample()
    ensures TransitionValue(Transition(2, Some(CubicBezier), Some([1, 0, 1, 0]), Some(5)))
            == "2s cubic-bezier(1,0,1,0) 5s"
  {
    TransitionBezierPieces();
    BezierSuffixExample();
    TransitionBezierText();
  }

  /** A missing timing function leaves two spaces, and a delay of 0 is the default "0". */
  lemma TransitionNoTimingExample()
    ensures TransitionValue(Transition(3, None, None, Some(0))) == "3s  0s"
  {
  }

  /** `IterationCount || 'infinite'`. */
  function IterationText(x: Option<Iterations>): string
  {
    match x
    case Some(Count(n)) => if n != 0 then NatToString(n) else "infinite"
    case _ => "infinite"
  }

  /** `transVal` in `SetThemeAnimation`; the delay ends the value as `(delay || '0' + 's')`. */
  function AnimationValue(a: Animation): string
  {
    IterationText(a.IterationCount) + " " + StringOr(a.direction, "normal") + " "
      + StringOr(a.fillMode, "none") + " " + StringOr(a.playState, "running") + " "
      + StringOr(a.Name, "") + " " + NumberOr(a.duration, "1") + "s "
      + TimingText(a.timingFunc) + CubicBezierSuffix(a.timingFunc, a.timingFuncVal) + " "
      + NumberOr(a.delay, "0s")
  }

  /** The eight fields of an animation value, each with its own default. */
  function AnimationFields(a: Animation): (fields: seq<string>)
    ensures |fields| == 8
  {
    [ IterationText(a.IterationCount),
      StringOr(a.direction, "normal"),
      StringOr(a.fillMode, "none"),
      StringOr(a.playState, "running"),
      StringOr(a.Name, ""),
      NumberOr(a.duration, "1") + "s",
      TimingText(a.timingFunc) + CubicBezierSuffix(a.timingFunc, a.timingFuncVal),
      NumberOr(a.delay, "0s") ]
  }

  predicate NoSpace(x: Option<string>) { x.Some? ==> ' ' !in x.value }

  /** Eight pieces joined with spaces, written out. */
  lemma JoinEight(x: seq<string>)
    requires |x| == 8
    ensures JoinWith(x, ' ')
            == x[0] + " " + x[1] + " " + x[2] + " " + x[3] + " " + x[4] + " " + x[5] + " " + x[6] + " " + x[7]
  {
    JoinWithSnoc(x[..1], x[1], ' ');
    assert x[..1] + [x[1]] == x[..2];
    JoinWithSnoc(x[..2], x[2], ' ');
    assert x[..2] + [x[2]] == x[..3];
    JoinWithSnoc(x[..3], x[3], ' ');
    assert x[..3] + [x[3]] == x[..4];
    JoinWithSnoc(x[..4], x[4], ' ');
    assert x[..4] + [x[4]] == x[..5];
    JoinWithSnoc(x[..5], x[5], ' ');
    assert x[..5] + [x[5]] == x[..6];
    JoinWithSnoc(x[..6], x[6], ' ');
    assert x[..6] + [x[6]] == x[..7];
    JoinWithSnoc(x[..7], x[7], ' ');
    assert x[..7] + [x[7]] == x;
  }

  lemma AnimationShape(i: string, d: string, f: string, p: string, n: string, u: string,
                        tf: string, cb: string, l: string)
    ensures i + " " + d + " " + f + " " + p + " " + n + " " + u + "s " + tf + cb + " " + l
            == JoinWith([i, d, f, p, n, u + "s", tf + cb, l], ' ')
  {
    JoinEight([i, d, f, p, n, u + "s", tf + cb, l]);
    var j5 := i + " " + d + " " + f + " " + p + " " + n;
    assert j5 + " " + u + "s " + tf + cb == j5 + " " + (u + "s") + " " + (tf + cb);
  }

  lemma NumberOrNoSpace(x: Option<nat>, fallback: string)
    requires ' ' !in fallback
    ensures ' ' !in NumberOr(x, fallback) && ' ' !in NumberOr(x, fallback) + "s"
  {
    if NumberGiven(x) { DigitsExclude(NatToString(x.value), ' '); }
  }

  lemma TimingNoSpace(t: Option<Timing>, values: Option<seq<nat>>)
    ensures ' ' !in TimingText(t) + CubicBezierSuffix(t, values)
  {
    var cb := CubicBezierSuffix(t, values);
    if t.Some? {
      assert ' ' !in TimingName(t.value);
    }
  }

  /** No field of an animation value holds a space when its free-text fields hold none. */
  lemma FieldsNoSpace(a: Animation)
    requires NoSpace(a.direction) && NoSpace(a.fillMode) && NoSpace(a.playState) && NoSpace(a.Name)
    ensures ' ' !in IterationText(a.IterationCount)
    ensures ' ' !in StringOr(a.direction, "normal") && ' ' !in StringOr(a.fillMode, "none")
    ensures ' ' !in StringOr(a.playState, "running") && ' ' !in StringOr(a.Name, "")
    ensures ' ' !in NumberOr(a.duration, "1") + "s"
    ensures ' ' !in TimingText(a.timingFunc) + CubicBezierSuffix(a.timingFunc, a.timingFuncVal)
    ensures ' ' !in NumberOr(a.delay, "0s") && ' ' !in NumberOr(a.delay, "0") + "s"
  {
    if a.IterationCount.Some? && a.IterationCount.value.Count? && a.IterationCount.value.n != 0 {
      DigitsExclude(NatToString(a.IterationCount.value.n), ' ');
    }
    NumberOrNoSpace(a.duration, "1");
    NumberOrNoSpace(a.delay, "0s");
    NumberOrNoSpace(a.delay, "0");
    TimingNoSpace(a.timingFunc, a.timingFuncVal);
  }

  /** When the free-text fields hold no spaces, the value splits at single spaces into exactly
      the eight fields, in their fixed order. */
  lemma AnimationSplit(a: Animation)
    requires NoSpace(a.direction) && NoSpace(a.fillMode) && NoSpace(a.playState) && NoSpace(a.Name)
    ensures Split(AnimationValue(a), ' ') == AnimationFields(a)
  {
    var f := AnimationFields(a);
    var u := NumberOr(a.duration, "1");
    FieldsNoSpace(a);
    forall i | 0 <= i < 8 ensures ' ' !in f[i] { }
    AnimationShape(f[0], f[1], f[2], f[3], f[4], u, TimingText(a.timingFunc),
                   CubicBezierSuffix(a.timingFunc, a.timingFuncVal), f[7]);
    SplitJoinWith(f, ' ');
  }

  /** The value ends in "s" exactly when the delay is absent or 0: a given delay is emitted
      bare, because `'0' + 's'` binds tighter than `||`. */
  lemma AnimationDelayUnit(a: Animation)
    ensures var v := AnimationValue(a); |v| > 0 && (v[|v| - 1] == 's' <==> !NumberGiven(a.delay))
  {
    var last := NumberOr(a.delay, "0s");
    var v := AnimationValue(a);
    assert v == (v[..|v| - |last|]) + last;
    assert v[|v| - 1] == last[|last| - 1];
  }

  /** A 0 is falsy: a duration, delay or iteration count of 0 renders as if it were absent. */
  lemma AnimationZeroIsAbsent(a: Animation)
    ensures AnimationValue(a.(duration := Some(0))) == AnimationValue(a.(duration := None))
    ensures AnimationValue(a.(delay := Some(0))) == AnimationValue(a.(delay := None))
    ensures AnimationValue(a.(IterationCount := Some(Count(0))))
            == AnimationValue(a.(IterationCount := None))
            == AnimationValue(a.(IterationCount := Some(Infinite)))
  {
  }

  /** The default leading fields, as `AnimationValue` builds them. */
  lemma DefaultsText()
    ensures "infinite" + " " + "normal" + " " + "none" + " " + "running" + " " == "infinite normal none running "
  {
    assert "infinite" + " " + "normal" + " " + "none" == "infinite normal none";
  }

  lemma AnimationTestePieces()
    ensures AnimationValue(Animation(None, Some("normal"), Some(2), None, Some(Infinite),
                                     Some("Teste"), None, None, None))
            == "infinite" + " " + "normal" + " " + "none" + " " + "running" + " " + "Teste" + " "
               + "2" + "s " + "" + "" + " " + "0s"
  {
    assert NatToString(2) == "2";
  }

  /** `{IterationCount: 'infinite', Name: 'Teste', direction: 'normal', duration: 2}` gives
      "infinite normal none running Teste 2s  0s". */
  lemma AnimationTesteExample()
    ensures AnimationValue(Animation(None, Some("normal"), Some(2), None, Some(Infinite),
                                     Some("Teste"), None, None, None))
            == "infinite normal none running Teste 2s  0s"
  {
    AnimationTestePieces();
    DefaultsText();
    assert "infinite normal none running " + "Teste" + " " + "2" + "s " == "infinite normal none running Teste 2s ";
  }

  lemma BareDelayPieces()
    ensures AnimationValue(Animation(Some(3), None, None, None, None, None, None, Some(Linear), None))
            == "infinite" + " " + "normal" + " " + "none" + " " + "running" + " " + "" + " "
               + "1" + "s " + "linear" + "" + " " + "3"
  {
    assert NatToString(3) == "3";
  }

  /** A given delay of 3 is left without its unit, and the empty `Name` leaves two spaces. */
  lemma AnimationBareDelayExample()
    ensures AnimationValue(Animation(Some(3), None, None, None, None, None, None, Some(Linear), None))
            == "infinite normal none running  1s linear 3"
  {
    BareDelayPieces();
    DefaultsText();
    assert "infinite normal none running " + "" + " " + "1" + "s " == "infinite normal none running  1s ";
  }

  /** `transVal` with the delay read as `(delay || '0') + 's'`, the way the transition value
      reads it: the delay then always carries its unit. */
  function IntendedAnimationValue(a: Animation): (v: string)
    ensures |v| >= 2 && v[|v| - 1] == 's'
  {
    IterationText(a.IterationCount) + " " + StringOr(a.direction, "normal") + " "
      + StringOr(a.fillMode, "none") + " " + StringOr(a.playState, "running") + " "
      + StringOr(a.Name, "") + " " + NumberOr(a.duration, "1") + "s "
      + TimingText(a.timingFunc) + CubicBezierSuffix(a.timingFunc, a.timingFuncVal) + " "
      + (NumberOr(a.delay, "0") + "s")
  }

  /** The corrected value has the same first seven fields, and its last field is the delay
      (0 when absent or 0) followed by "s". */
  lemma IntendedAnimationSplit(a: Animation)
    requires NoSpace(a.direction) && NoSpace(a.fillMode) && NoSpace(a.playState) && NoSpace(a.Name)
    ensures Split(IntendedAnimationValue(a), ' ') == AnimationFields(a)[7 := NumberOr(a.delay, "0") + "s"]
  {
    var l := NumberOr(a.delay, "0");
    var u := NumberOr(a.duration, "1");
    var g := AnimationFields(a);
    var f := [g[0], g[1], g[2], g[3], g[4], u + "s", g[6], l + "s"];
    assert f == g[7 := l + "s"];
    FieldsNoSpace(a);
    forall i | 0 <= i < 8 ensures ' ' !in f[i] { }
    AnimationShape(f[0], f[1], f[2], f[3], f[4], u, TimingText(a.timingFunc),
                   CubicBezierSuffix(a.timingFunc, a.timingFuncVal), l + "s");
    SplitJoinWith(f, ' ');
  }

  /** In the corrected value the last field always ends in "s" and reads back as the delay,
      0 standing for an absent one. */
  lemma IntendedAnimationDelay(a: Animation)
    requires NoSpace(a.direction) && NoSpace(a.fillMode) && NoSpace(a.playState) && NoSpace(a.Name)
    ensures var f := Split(IntendedAnimationValue(a), ' ');
            && |f| == 8 && |f[7]| >= 2 && f[7][|f[7]| - 1] == 's'
            && ParseNat(f[7][..|f[7]| - 1]) == Some(if NumberGiven(a.delay) then a.delay.value else 0)
  {
    IntendedAnimationSplit(a);
    var l := NumberOr(a.delay, "0");
    assert (l + "s")[..|l|] == l;
    if !NumberGiven(a.delay) {
      assert ParseNat("0") == Some(0);
    }
  }

  lemma IntendedBareDelayPieces()
    ensures IntendedAnimationValue(Animation(Some(3), None, None, None, None, None, None, Some(Linear), None))
            == "infinite" + " " + "normal" + " " + "none" + " " + "running" + " " + "" + " "
               + "1" + "s " + "linear" + "" + " " + ("3" + "s")
  {
    assert NatToString(3) == "3";
  }

  /** With the correction, a delay of 3 is written "3s". */
  lemma IntendedBareDelayExample()
    ensures IntendedAnimationValue(Animation(Some(3), None, None, None, None, None, None, Some(Linear), None))
            == "infinite normal none running  1s linear 3s"
  {
    IntendedBareDelayPieces();
    DefaultsText();
    assert "infinite normal none running " + "" + " " + "1" + "s " == "infinite normal none running  1s ";
  }
}
