# Inventure front end: rest-timer and profile logic in Dafny

This project models the decision and aggregation logic embedded in two views of
the Inventure fitness front end, and proves what that logic guarantees.

- **Rest-timer screen** (`RestTime` module). It reads the workout session: the
  index pair `current` (plan position, phase), the remaining rest `time`, and the
  plan. From these it picks a route: the congratulations page, the plan overview,
  the exercise screen, or the rest screen itself. It decides when the countdown
  hands over to the next step (`goNext`). It shows the countdown as `m:ss`. It
  announces the next visible exercise after "Next:". `Render` puts the pieces
  together into one screen value.
- **Profile page** (`Profile` module). It has the English ordinal suffix shown
  after a rank. It folds the user's workout track into a name → total-points
  dictionary with a loop (`AggregateTrack`). It ranks that dictionary by
  non-increasing total, with ranks 1..n. It computes the point thresholds of the
  user's level. It formats the chart's `YYYYMMDD` axis keys as `MM/DD`.
- **JavaScript semantics** (`Js` module). These are the language rules the views
  depend on: the truncating `%`, where `-1 % 2` is `-1`; `slice` with its index
  clamping and negative indices; `reduce((a, b) => a + b, 0)`; and the decimal
  text of a whole number.
- `Wrappers` holds an `Option` type. It stands for values JavaScript may leave
  `undefined` (`points`, `levels`) and for the failed read of `.name`.

Route changes are returned as values, not performed. `goNext` is represented
only by the decision to call it.

## Model

| member | source | states |
|---|---|---|
| `Js.JsRem` | src/components/StartWorkout/RestTime.tsx:65 | JavaScript `%`: the magnitude is `|a| mod |b|` and the sign follows the dividend, so negative dividends give non-positive remainders |
| `Js.JsRemNonNegative` | src/components/Profile.tsx:27-28 | on a non-negative dividend JavaScript `%` equals the mathematical remainder |
| `Js.ClampIndex` | src/components/Profile.tsx:196 | how `slice` resolves an index: a negative index counts from the end, and the result is clamped to `[0, len]` |
| `Js.JsSlice` | src/components/Profile.tsx:310-315 | `slice(start, end)` is never longer than its input; with in-range indices it is the plain subsequence; a non-negative end at or before the start gives empty |
| `Js.Sum` | src/components/Profile.tsx:312 | the `reduce((a, b) => a + b, 0)` sum of non-negative elements is non-negative |
| `Js.SumPrefixStep` | src/components/Profile.tsx:312 | the left-fold sum of a prefix one longer adds exactly the next element |
| `Js.SumPrefixMonotone` | src/components/Profile.tsx:310-315 | over non-negative elements, a longer prefix never sums to less |
| `Js.NatToString` | src/components/StartWorkout/RestTime.tsx:93-94 | the decimal text of a number is non-empty and all digits, and is one character exactly for numbers below 10 |
| `Js.IntToString` | src/components/StartWorkout/RestTime.tsx:93-94 | a non-negative number is its decimal digits, which read back as the number; a negative number is `-` followed by digits that read back as its magnitude |
| `Js.NatToStringRoundTrip` | src/components/StartWorkout/RestTime.tsx:93-94 | reading the decimal text of `n` back gives `n` |
| `Js.NatToStringNoLeadingZero` | src/components/StartWorkout/RestTime.tsx:94 | the decimal text starts with `'0'` only for the number 0 |
| `Js.Pad2` | src/components/StartWorkout/RestTime.tsx:94 | two-digit zero-padded text of `n < 100` is two digits that read back as `n` |
| `RestTime.ChooseRoute` | src/components/StartWorkout/RestTime.tsx:61-67 | congratulations exactly when `current[0] == -2`, whatever the phase; plan overview exactly when `current[0] == -1`; exercise screen exactly when neither holds and the phase is positive and odd; rest screen in every other case |
| `RestTime.NegativeOddPhaseStays` | src/components/StartWorkout/RestTime.tsx:65-67 | a negative odd phase fails the JavaScript `% 2 === 1` test, so the rest screen stays |
| `RestTime.RedirectPath` | src/components/StartWorkout/RestTime.tsx:61-66 | congratulations redirects to `/workout/congrats`, the plan overview to `/workout`, the exercise screen to `/workout/start`; only the rest screen has no redirect |
| `RestTime.ShouldAdvance` | src/components/StartWorkout/RestTime.tsx:52-57 | the guard inside the effect passes exactly when `current[0] >= 0` and `time < 0`; with `current[0] < 0` it never passes |
| `RestTime.AdvanceOnlyOnActiveScreen` | src/components/StartWorkout/RestTime.tsx:52-67 | when `goNext` fires, the route is neither the congratulations page nor the plan overview |
| `RestTime.GoNextCalled` | src/components/StartWorkout/RestTime.tsx:52-57 | `goNext` is called after a render exactly when `current[0] >= 0`, `time < 0`, and the render did not throw: either it redirects, or `current[0]` is inside the visible plan |
| `RestTime.CrashedRenderDoesNotAdvance` | src/components/StartWorkout/RestTime.tsx:52-117 | with `current == (0, 0)`, `time == -1` and an empty plan, the guard passes but the render throws at the `.name` read, so `goNext` is not called |
| `RestTime.VisiblePlan` | src/components/StartWorkout/RestTime.tsx:59 | the filtered plan is no longer than the plan and holds only non-hidden entries of the plan |
| `RestTime.VisiblePlanIsOrderedFilter` | src/components/StartWorkout/RestTime.tsx:59 | the filtered plan is an order-preserving subsequence of the plan, and its length is the plan's length minus the hidden entries, so it keeps every non-hidden entry |
| `RestTime.VisiblePlanMembership` | src/components/StartWorkout/RestTime.tsx:59 | an entry is in the filtered plan exactly when it is a non-hidden entry of the plan |
| `RestTime.VisiblePlanIdempotent` | src/components/StartWorkout/RestTime.tsx:59 | filtering twice is the same as filtering once |
| `RestTime.NextName` | src/components/StartWorkout/RestTime.tsx:117 | the "Next:" name is `''` when `current[0] < 0`; otherwise it is the name of the visible entry at `current[0]`; when that index is past the visible plan there is no name, because the unchecked read fails |
| `RestTime.NextNameIsVisible` | src/components/StartWorkout/RestTime.tsx:117 | an announced name belongs to some non-hidden plan entry |
| `RestTime.NextNameWithoutHidden` | src/components/StartWorkout/RestTime.tsx:117 | with no hidden entries, the announced name is the plan's own entry at that position |
| `RestTime.SecondsField` | src/components/StartWorkout/RestTime.tsx:94 | the seconds field is at least two characters, and for seconds in `0..59` it is exactly the two-digit zero-padded text |
| `RestTime.ClockText` | src/components/StartWorkout/RestTime.tsx:93-94 | for `t >= 0` the clock is the decimal minutes `t / 60`, `:`, and the two-digit seconds `t % 60` |
| `RestTime.ClockTextShape` | src/components/StartWorkout/RestTime.tsx:93-94 | for `t >= 0`: `m*60 + s == t` with `0 <= s < 60`; the clock is the minutes, `:`, and the seconds as exactly two digits; the seconds field starts with `'0'` exactly when `s < 10` |
| `RestTime.ClockTextRoundTrip` | src/components/StartWorkout/RestTime.tsx:93-94 | parsing the `m:ss` clock of a non-negative countdown gives back that countdown |
| `RestTime.ParseClockOf` | src/components/StartWorkout/RestTime.tsx:93-94 | text made of minute digits, `:` and two second digits reads back as minutes × 60 + seconds |
| `RestTime.ClockTextJustExpired` | src/components/StartWorkout/RestTime.tsx:93-94 | at `t == -1` the clock reads `-1:0-1` (floored minutes, truncating seconds) |
| `RestTime.Render` | src/components/StartWorkout/RestTime.tsx:59-117 | the screen redirects exactly when the route is not the rest screen: to `/workout/congrats` exactly when `current[0] == -2`, to `/workout` exactly when `current[0] == -1`, to `/workout/start` exactly when neither holds and the phase is positive and odd; it fails exactly when it would otherwise stay on the rest screen and `current[0]` is past the visible plan; the rest view shows the clock of the time and the "Next:" name |
| `Profile.OrdinalSuffix` | src/components/Profile.tsx:26-39 | the suffix is one of `st`, `nd`, `rd`, `th`, and every negative number gets `th` |
| `Profile.OrdinalSuffixConditions` | src/components/Profile.tsx:26-39 | for `i >= 0`: `st` iff `i%10==1 && i%100!=11`; `nd` iff `i%10==2 && i%100!=12`; `rd` iff `i%10==3 && i%100!=13`; `th` otherwise |
| `Profile.OrdinalSuffixIsEnglish` | src/components/Profile.tsx:26-39 | for non-negative numbers the suffix agrees with the English rule: 11-13 mod 100 take `th`, otherwise the last digit 1/2/3 decides |
| `Profile.OrdinalSuffixPeriodic` | src/components/Profile.tsx:27-28 | for `i >= 0`, `i` and `i + 100` take the same suffix |
| `Profile.OrdinalSuffixExamples` | src/components/Profile.tsx:29-38 | 1, 21, 101 → `st`; 2, 22 → `nd`; 3, 23 → `rd`; 11, 12, 13, 111, 112, 113 → `th` |
| `Profile.NamesIn` | src/components/Profile.tsx:276-281 | every track entry's name is among the track's names |
| `Profile.NamesInExactly` | src/components/Profile.tsx:276-281 | a name is among the track's names exactly when some entry carries it |
| `Profile.TrackPrefixStep` | src/components/Profile.tsx:276-281 | one more loop step adds that entry's name to the key set and its points to that name's total |
| `Profile.PointsForAbsent` | src/components/Profile.tsx:277-280 | a name not yet in the track has total 0, so the overwrite branch is the same as adding |
| `Profile.Totals` | src/components/Profile.tsx:272-283 | the reference dictionary has exactly the track's names as keys |
| `Profile.AggregateTrack` | src/components/Profile.tsx:274-283 | after the loop, the keys are exactly the track's names, and each total is the sum of the points of the entries with that name (missing points count 0, via `PointsOf`); this holds even when a zero total sends control to the overwrite branch |
| `Profile.FirstOccurrences` | src/components/Profile.tsx:326 | the key order (first occurrence in the track) lists exactly the track's names |
| `Profile.FirstOccurrencesDistinct` | src/components/Profile.tsx:326 | the key order lists no name twice |
| `Profile.SumOfTotalsOtherName` | src/components/Profile.tsx:277-280 | an entry whose name is not listed contributes nothing to the listed totals |
| `Profile.SumOfTotalsLastEntry` | src/components/Profile.tsx:277-280 | an entry contributes its points exactly once to a list naming it once |
| `Profile.SumOfTotalsConserves` | src/components/Profile.tsx:276-282 | summed over any list naming each exercise once, the totals add up to all points of the track |
| `Profile.SumOfTotalsEmptyTrack` | src/components/Profile.tsx:275 | every total of the empty dictionary is 0 |
| `Profile.AggregationConservesPoints` | src/components/Profile.tsx:276-282 | aggregation conserves points: the sum of the totals equals the sum of all track points |
| `Profile.InsertByTotal` | src/components/Profile.tsx:327 | one insertion step adds exactly the inserted key to the list, as a multiset |
| `Profile.InsertMembers` | src/components/Profile.tsx:327 | after insertion the list holds the inserted key and the earlier keys, and nothing else |
| `Profile.InsertKeepsSorted` | src/components/Profile.tsx:327 | inserting into a list sorted by non-increasing total keeps it sorted |
| `Profile.InsertIsStable` | src/components/Profile.tsx:327 | the inserted key goes in front of keys with an equal total, and no two keys with equal totals swap |
| `Profile.WithTotalAllAbove` | src/components/Profile.tsx:327 | in a sorted list, a leading key with a bigger total is not among the keys with a smaller total |
| `Profile.SortByTotal` | src/components/Profile.tsx:326-327 | the sorted keys are a permutation of the keys, ordered by non-increasing total; keys with equal totals keep their original order (the sort is stable) |
| `Profile.Names` | src/components/Profile.tsx:328-331 | the names of the cards, in card order |
| `Profile.NumberFrom` | src/components/Profile.tsx:328-331 | numbering a list of names keeps the names in order and gives consecutive ranks from the starting number |
| `Profile.RankExercises` | src/components/Profile.tsx:326-331 | the cards carry ranks exactly 1..n in list order; they name each key as often as it occurs; they are ordered by non-increasing total; their names are the stably sorted keys, so among equal totals the earlier key gets the better rank |
| `Profile.OverviewOfTrack` | src/components/Profile.tsx:272-331 | the overview list built from a track names every exercise of the track exactly once, and nothing else |
| `Profile.DistinctPermutation` | src/components/Profile.tsx:326-327 | sorting a repetition-free key list keeps it repetition-free |
| `Profile.DistinctCount` | src/components/Profile.tsx:326 | each key occurs at most once in a repetition-free list |
| `Profile.PrevMaxPoints` | src/components/Profile.tsx:310-312 | for `level >= 0`, `prevMaxPoints` is the sum of the first `min(level, n)` level spans, `n` being the number of configured levels |
| `Profile.MaxPoints` | src/components/Profile.tsx:313-315 | for `level >= 0`, `maxPoints` is `prevMaxPoints` plus `levels[level]` when that level is configured, and `prevMaxPoints` otherwise |
| `Profile.LevelThresholds` | src/components/Profile.tsx:310-315 | for `level >= 0`, `prevMaxPoints` is the sum of the first `min(level, |levels|)` spans; `maxPoints` adds `levels[level]` when `level < |levels|` and nothing otherwise; with non-negative spans `prevMaxPoints <= maxPoints` |
| `Profile.PrevMaxPointsMonotone` | src/components/Profile.tsx:310-312 | with non-negative spans, a higher level never starts below a lower one |
| `Profile.TickFormat` | src/components/Profile.tsx:196 | the axis label is at most five characters, and for a key of eight or more characters it is characters 4-5, `/`, characters 6-7 |
| `Profile.TickFormatOfDateKey` | src/components/Profile.tsx:196 | for an 8-character key the label is `t[4..6] + "/" + t[6..8]`, five characters with `/` in the middle |
| `Profile.DateKey` | src/components/Profile.tsx:153-160 | a chart date key is eight decimal digits |
| `Profile.TickFormatShowsMonthAndDay` | src/components/Profile.tsx:196 | the label of a date key is its zero-padded month, `/`, and its zero-padded day; both halves read back as that month and day |

## Left out

- All JSX, inline styles, CSS transitions and layout. They are presentation with nothing to state.
- Router side effects (`<Redirect>`, `history.push`, `navigateTab`) and the login redirect of the profile page. The route is a returned value.
- The workout and auth stores and the bodies of `goNext`, `toggleMute` and `togglePause`. `../../stores/workout` is not part of this model, so `goNext` appears only as the decision to call it.
- React `useEffect`/`useState` scheduling, including the dependency array at src/components/Profile.tsx:284. That array recomputes the totals only when the track length changes. This is React runtime behaviour, not logic in this code.
- `Math.floor` of a fractional `workout.time`. Time is modelled as an already floored whole number of seconds. `time / 60` is then Dafny's division, which floors for a positive divisor just as `Math.floor` does.
- `capitalizeFirst` and `capitalizeEach`. Their source is not part of this model. `NextName` gives the name before capitalisation.
- `RankExercises`: JavaScript lists integer-like string keys first, in numeric order. The model uses plain insertion (first-occurrence) order for every key, which matches exercise names that are not numerals.
- `PointsOf`: `points || 0` also maps `NaN` to 0. Points are modelled as whole numbers or missing, so `NaN` does not arise.
- The Victory chart, the hard-coded seven-day data array (only the shape of its keys is modelled, by `DateKey`), the window resize listener, and the floating-point grid transform at src/components/Profile.tsx:214.
- `randomElement` for the achievement colour scheme, because it is nondeterministic. The `Color`/`changeA` alpha arithmetic and `untilNthIndex` are also left out; their source is not part of this model.
- The static "Current Progress" list at src/components/StartWorkout/RestTime.tsx:162-464, the mute and pause button labels, and the profile card's other fields. They are fixed markup or plain display.
- `AggregateTrack`: `tempObj` is a plain object, so a name that is an `Object.prototype` property (`constructor`, `toString`, `__proto__`) finds an inherited truthy value. `+=` then concatenates strings, and an assignment to `__proto__` creates no own key. The model treats the dictionary as a map from names to numbers, so its statement that the keys are exactly the track's names holds only for names that are not such properties.
- `Sum`, `TotalPoints`, `PointsFor`: JavaScript numbers are IEEE doubles, so sums beyond 2^53 round. The model's integers are unbounded and do not round.
- `TickFormat`: JavaScript's `slice` counts UTF-16 code units, while the model slices sequences of Unicode characters. Text with characters outside the Basic Multilingual Plane would give a different label. The chart's keys are plain digits, so they are not affected.
- `NatToString`: `String(n)` switches to exponent notation from 1e21. The model always gives plain decimal digits.
- `auth.track || []`: a missing track behaves like an empty one. The model takes the track as a sequence.
