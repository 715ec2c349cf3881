/**
 * The decision logic of the rest-timer screen shown between two sets of a
 * workout: where the screen sends the user, when the countdown hands over to
 * the next step, how the countdown reads, and which exercise is announced as
 * "Next:". The workout session lives in a store outside this model; here it
 * is a value handed to the screen.
 */
module RestTime {
  import opened Wrappers
  import opened Js

  /** One entry of the workout plan; hidden entries are not shown to the user. */
  datatype PlanEntry = PlanEntry(name: string, hidden: bool)

  /**
   * The part of the workout session the screen reads. `current` is the index
   * pair (plan position, phase); the store uses -1 for "no exercise chosen"
   * and -2 for "workout finished". `time` is the remaining rest time in whole
   * seconds (already floored).
   */
  datatype Workout = Workout(current: (int, int), time: int, plan: seq<PlanEntry>)

  /** The four outcomes of the screen's route choice. */
  datatype Route = Congrats | PlanOverview | ExerciseStart | Rest

  const CongratsPath: string := "/workout/congrats"
  const PlanOverviewPath: string := "/workout"
  const ExerciseStartPath: string := "/workout/start"

  /** What the screen produces: a redirect, the rest view, or the TypeError of reading `.name` of a missing plan entry. */
  datatype Screen = Redirect(to: string) | RestView(clock: string, next: string) | RenderFailure

  /**
   * The nested conditional that picks the route from `current`: a finished
   * workout goes to the congratulations page, no exercise to the plan, an
   * odd phase (JavaScript remainder) to the exercise screen, and anything
   * else stays on the rest screen.
   */
  function ChooseRoute(current: (int, int)): (r: Route)
    ensures r == Congrats <==> current.0 == -2
    ensures r == PlanOverview <==> current.0 == -1
    ensures r == ExerciseStart <==>
      current.0 != -2 && current.0 != -1 && current.1 > 0 && current.1 % 2 == 1
    ensures r == Rest <==>
      current.0 != -2 && current.0 != -1 && (current.1 <= 0 || current.1 % 2 == 0)
  {
    if current.0 == -2 then Congrats
    else if current.0 == -1 then PlanOverview
    else if JsRem(current.1, 2) == 1 then ExerciseStart
    else Rest
  }

  /** A negative odd phase is not "odd" for the JavaScript test, so the rest screen stays. */
  lemma NegativeOddPhaseStays(p: int, k: int)
    requires p >= 0 && k < 0 && k % 2 == 1
    ensures ChooseRoute((p, k)) == Rest
  {
  }

  /** The redirect target of each route; the rest screen has none. */
  function RedirectPath(r: Route): (path: Option<string>)
    ensures path.None? <==> r == Rest
    ensures r == Congrats ==> path == Some("/workout/congrats")
    ensures r == PlanOverview ==> path == Some("/workout")
    ensures r == ExerciseStart ==> path == Some("/workout/start")
  {
    match r
    case Congrats => Some(CongratsPath)
    case PlanOverview => Some(PlanOverviewPath)
    case ExerciseStart => Some(ExerciseStartPath)
    case Rest => None
  }

  /**
   * The guard inside the effect: it passes exactly when a plan position is set
   * and the countdown has run out. Whether the effect runs at all depends on
   * the render succeeding; see `GoNextCalled`.
   */
  function ShouldAdvance(w: Workout): (fire: bool)
    ensures fire <==> w.current.0 >= 0 && w.time < 0
    ensures w.current.0 < 0 ==> !fire
  {
    if w.current.0 < 0 then false else w.time < 0
  }

  /** Whenever the countdown fires, the screen is not being sent to the congratulations page or the plan. */
  lemma AdvanceOnlyOnActiveScreen(w: Workout)
    requires ShouldAdvance(w)
    ensures ChooseRoute(w.current) == ExerciseStart || ChooseRoute(w.current) == Rest
  {
  }

  /** `workout.plan.filter((p) => !p.hidden)`. */
  function VisiblePlan(plan: seq<PlanEntry>): (r: seq<PlanEntry>)
    ensures |r| <= |plan|
    ensures forall i :: 0 <= i < |r| ==> !r[i].hidden && r[i] in plan
  {
    if plan == [] then []
    else if plan[0].hidden then VisiblePlan(plan[1..])
    else [plan[0]] + VisiblePlan(plan[1..])
  }

  /** `a` is obtained from `b` by deleting entries, keeping the order of the rest. */
  predicate IsSubsequence<T(==)>(a: seq<T>, b: seq<T>)
    decreases |b|
  {
    if a == [] then true
    else if b == [] then false
    else (a[0] == b[0] && IsSubsequence(a[1..], b[1..])) || IsSubsequence(a, b[1..])
  }

  /** The number of hidden entries of a plan. */
  function HiddenCount(plan: seq<PlanEntry>): nat
  {
    if plan == [] then 0 else (if plan[0].hidden then 1 else 0) + HiddenCount(plan[1..])
  }

  /**
   * The visible plan keeps every non-hidden entry, in order, and nothing else:
   * it is a subsequence of the plan whose length is the plan's length minus its
   * hidden entries.
   */
  lemma {:induction false} VisiblePlanIsOrderedFilter(plan: seq<PlanEntry>)
    ensures IsSubsequence(VisiblePlan(plan), plan)
    ensures |VisiblePlan(plan)| + HiddenCount(plan) == |plan|
  {
    if plan != [] {
      VisiblePlanIsOrderedFilter(plan[1..]);
      var rest := VisiblePlan(plan[1..]);
      if !plan[0].hidden {
        assert VisiblePlan(plan) == [plan[0]] + rest;
        assert ([plan[0]] + rest)[1..] == rest;
      }
    }
  }

  /** An entry is in the visible plan exactly when it is a non-hidden entry of the plan. */
  lemma {:induction false} VisiblePlanMembership(plan: seq<PlanEntry>, e: PlanEntry)
    ensures e in VisiblePlan(plan) <==> e in plan && !e.hidden
  {
    if plan != [] {
      VisiblePlanMembership(plan[1..], e);
      assert plan == [plan[0]] + plan[1..];
    }
  }

  /** Filtering an already visible plan changes nothing. */
  lemma {:induction false} VisiblePlanIdempotent(plan: seq<PlanEntry>)
    ensures VisiblePlan(VisiblePlan(plan)) == VisiblePlan(plan)
  {
    if plan != [] {
      VisiblePlanIdempotent(plan[1..]);
      if !plan[0].hidden {
        assert ([plan[0]] + VisiblePlan(plan[1..]))[1..] == VisiblePlan(plan[1..]);
      }
    }
  }

  /**
   * The name after "Next:": empty when no plan position is set, otherwise the
   * name of the visible entry at that position. The source indexes without a
   * range check; an index past the visible plan reads `.name` of `undefined`,
   * which is `None` here.
   */
  function NextName(current: (int, int), plan: seq<PlanEntry>): (r: Option<string>)
    ensures current.0 < 0 ==> r == Some("")
    ensures current.0 >= 0 ==> (r.Some? <==> current.0 < |VisiblePlan(plan)|)
    ensures 0 <= current.0 < |VisiblePlan(plan)| ==> r == Some(VisiblePlan(plan)[current.0].name)
  {
    var visible := VisiblePlan(plan);
    if current.0 < 0 then Some("")
    else if current.0 < |visible| then Some(visible[current.0].name)
    else None
  }

  /** A present announced name is the name of some non-hidden plan entry. */
  lemma NextNameIsVisible(current: (int, int), plan: seq<PlanEntry>)
    requires current.0 >= 0 && NextName(current, plan).Some?
    ensures exists e :: e in plan && !e.hidden && e.name == NextName(current, plan).value
  {
  }

  /** With no hidden entries the announced name is simply the plan's entry at that position. */
  lemma NextNameWithoutHidden(current: (int, int), plan: seq<PlanEntry>)
    requires HiddenCount(plan) == 0 && 0 <= current.0 < |plan|
    ensures NextName(current, plan) == Some(plan[current.0].name)
  {
    VisiblePlanIsOrderedFilter(plan);
    SubsequenceOfSameLength(VisiblePlan(plan), plan);
  }

  /** A subsequence as long as the sequence it is taken from is that sequence. */
  lemma {:induction false} SubsequenceOfSameLength<T>(a: seq<T>, b: seq<T>)
    requires IsSubsequence(a, b) && |a| == |b|
    ensures a == b
    decreases |b|
  {
    if a != [] {
      if a[0] == b[0] && IsSubsequence(a[1..], b[1..]) {
        SubsequenceOfSameLength(a[1..], b[1..]);
        assert a == [a[0]] + a[1..] && b == [b[0]] + b[1..];
      } else {
        SubsequenceNoLonger(a, b[1..]);
        assert false;
      }
    }
  }

  /** A subsequence is never longer than the sequence it is taken from. */
  lemma {:induction false} SubsequenceNoLonger<T>(a: seq<T>, b: seq<T>)
    requires IsSubsequence(a, b)
    ensures |a| <= |b|
    decreases |b|
  {
    if a != [] {
      if a[0] == b[0] && IsSubsequence(a[1..], b[1..]) {
        SubsequenceNoLonger(a[1..], b[1..]);
      } else {
        SubsequenceNoLonger(a, b[1..]);
      }
    }
  }

  /** The seconds part of the clock: a `'0'` is put in front of one-digit values. */
  function SecondsField(s: int): (r: string)
    ensures |r| >= 2
    ensures 0 <= s < 60 ==> r == Pad2(s)
  {
    var r := (if s < 10 then "0" else "") + IntToString(s);
    if 0 <= s < 10 then
      assert NatToString(s) == [DigitChar(s)];
      r
    else if 10 <= s < 60 then
      assert NatToString(s) == NatToString(s / 10) + [DigitChar(s % 10)];
      assert NatToString(s / 10) == [DigitChar(s / 10)];
      r
    else
      r
  }

  /**
   * The countdown as displayed: `Math.floor(t / 60)`, a colon, then the seconds
   * field of `t % 60`. While time remains it reads the whole minutes and the
   * remaining seconds as two digits.
   */
  function ClockText(time: int): (r: string)
    ensures time >= 0 ==> r == NatToString(time / 60) + ":" + Pad2(time % 60)
  {
    var r := IntToString(time / 60) + ":" + SecondsField(JsRem(time, 60));
    if time >= 0 then JsRemNonNegative(time, 60); r else r
  }

  /**
   * For a countdown that has not run out, the clock reads the whole minutes,
   * a colon, and the remaining seconds as exactly two digits; minutes and
   * seconds recombine to the time, and the seconds field starts with `'0'`
   * exactly when fewer than ten seconds remain in the minute.
   */
  lemma ClockTextShape(time: int)
    requires time >= 0
    ensures time / 60 * 60 + time % 60 == time && 0 <= time % 60 < 60
    ensures ClockText(time) == NatToString(time / 60) + ":" + Pad2(time % 60)
    ensures |SecondsField(time % 60)| == 2
    ensures SecondsField(time % 60)[0] == '0' <==> time % 60 < 10
  {
    var s := time % 60;
    JsRemNonNegative(time, 60);
    assert SecondsField(s) == Pad2(s);
    assert Pad2(s)[0] == DigitChar(s / 10);
  }

  /** Reads a `m:ss` clock back into seconds; `None` for text of any other shape. */
  function ParseClock(text: string): Option<nat>
  {
    if |text| >= 4 && text[|text| - 3] == ':'
       && IsDigits(text[..|text| - 3]) && IsDigits(text[|text| - 2..])
    then Some(DigitsValue(text[..|text| - 3]) * 60 + DigitsValue(text[|text| - 2..]))
    else None
  }

  /** The clock of a non-negative countdown reads back as that countdown. */
  lemma ClockTextRoundTrip(time: int)
    requires time >= 0
    ensures ParseClock(ClockText(time)) == Some(time)
  {
    NatToStringRoundTrip(time / 60);
    ParseClockOf(NatToString(time / 60), Pad2(time % 60));
  }

  /** A clock made of minute digits, a colon and two second digits reads back as minutes times 60 plus seconds. */
  lemma ParseClockOf(m: string, ss: string)
    requires |m| >= 1 && IsDigits(m) && |ss| == 2 && IsDigits(ss)
    ensures ParseClock(m + ":" + ss) == Some(DigitsValue(m) * 60 + DigitsValue(ss))
  {
    var text := m + ":" + ss;
    var n := |text|;
    assert n == |m| + 3 >= 4;
    assert text[n - 3] == ':';
    assert text[..n - 3] == m;
    assert text[n - 2..] == ss;
  }

  /** One second past the end the clock reads "-1:0-1"; `goNext` replaces it only when a plan position is set and the render succeeds. */
  lemma ClockTextJustExpired()
    ensures ClockText(-1) == "-1:0-1"
  {
    assert -1 / 60 == -1 && JsRem(-1, 60) == -1;
    assert NatToString(1) == "1";
    assert IntToString(-1) == "-1";
    assert SecondsField(-1) == "0-1";
  }

  /**
   * One render of the screen: the route decides between a redirect and the
   * rest view; the rest view shows the clock and the next exercise name, or
   * fails when the plan position is past the visible plan.
   */
  function Render(w: Workout): (s: Screen)
    ensures s.Redirect? <==> ChooseRoute(w.current) != Rest
    ensures s == Redirect(CongratsPath) <==> w.current.0 == -2
    ensures s.RenderFailure? <==>
      ChooseRoute(w.current) == Rest && w.current.0 >= |VisiblePlan(w.plan)|
    ensures s == Redirect(PlanOverviewPath) <==> w.current.0 == -1
    ensures s == Redirect(ExerciseStartPath) <==>
      w.current.0 != -2 && w.current.0 != -1 && w.current.1 > 0 && w.current.1 % 2 == 1
    ensures s.RestView? ==> s.clock == ClockText(w.time)
    ensures s.RestView? ==> NextName(w.current, w.plan) == Some(s.next)
  {
    var route := ChooseRoute(w.current);
    match RedirectPath(route)
    case Some(path) => Redirect(path)
    case None =>
      match NextName(w.current, w.plan)
      case Some(name) => RestView(ClockText(w.time), name)
      case None => RenderFailure
  }

  /**
   * Whether one render ends with a call to `goNext`: React runs the effect
   * only after a render that did not throw, and then the guard decides. A
   * render that fails on the missing plan entry never reaches the effect.
   */
  function GoNextCalled(w: Workout): (called: bool)
    ensures called <==>
      w.current.0 >= 0 && w.time < 0
      && (ChooseRoute(w.current) != Rest || w.current.0 < |VisiblePlan(w.plan)|)
  {
    ShouldAdvance(w) && !Render(w).RenderFailure?
  }

  /** A spent countdown on a position past the visible plan crashes the render, so `goNext` is not called although the guard passes. */
  lemma CrashedRenderDoesNotAdvance()
    ensures ShouldAdvance(Workout((0, 0), -1, []))
    ensures Render(Workout((0, 0), -1, [])) == RenderFailure
    ensures !GoNextCalled(Workout((0, 0), -1, []))
  {
  }
}
