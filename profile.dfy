/**
 * The logic of the profile page: the English ordinal suffix printed after a
 * rank, the per-exercise point totals folded from the user's workout track,
 * their ranking by total, the point thresholds of the user's level, and the
 * date labels of the weekly chart's axis.
 */
module Profile {
  import opened Wrappers
  import opened Js

  // ---------------------------------------------------------------------------
  // Ordinal suffix of a rank ("1st", "2nd", "3rd", "4th", ...)

  /** `ordinalSuffix(i)`: the last digit decides, except that 11, 12 and 13 (mod 100) take "th". */
  function OrdinalSuffix(i: int): (r: string)
    ensures r == "st" || r == "nd" || r == "rd" || r == "th"
    ensures i < 0 ==> r == "th"
  {
    var j := JsRem(i, 10);
    var k := JsRem(i, 100);
    if j == 1 && k != 11 then "st"
    else if j == 2 && k != 12 then "nd"
    else if j == 3 && k != 13 then "rd"
    else "th"
  }

  /** The English rule, stated on the last two digits of a non-negative number. */
  function EnglishOrdinalSuffix(n: nat): string
  {
    var lastTwo := n % 100;
    if 11 <= lastTwo <= 13 then "th"
    else if n % 10 == 1 then "st"
    else if n % 10 == 2 then "nd"
    else if n % 10 == 3 then "rd"
    else "th"
  }

  /**
   * On non-negative numbers each suffix is chosen exactly under its condition:
   * "st" when the last digit is 1 and the last two are not 11, and likewise
   * for "nd" (2, 12) and "rd" (3, 13); "th" in every other case.
   */
  lemma OrdinalSuffixConditions(i: int)
    requires i >= 0
    ensures OrdinalSuffix(i) == "st" <==> i % 10 == 1 && i % 100 != 11
    ensures OrdinalSuffix(i) == "nd" <==> i % 10 == 2 && i % 100 != 12
    ensures OrdinalSuffix(i) == "rd" <==> i % 10 == 3 && i % 100 != 13
  {
  }

  /** The suffix of a non-negative number is the one the English rule gives. */
  lemma OrdinalSuffixIsEnglish(n: nat)
    ensures OrdinalSuffix(n) == EnglishOrdinalSuffix(n)
  {
  }

  /** The suffix of a non-negative number depends only on its last two digits. */
  lemma OrdinalSuffixPeriodic(i: int)
    requires i >= 0
    ensures OrdinalSuffix(i) == OrdinalSuffix(i + 100)
  {
    JsRemNonNegative(i, 10);
    JsRemNonNegative(i, 100);
    JsRemNonNegative(i + 100, 10);
    JsRemNonNegative(i + 100, 100);
    assert (i + 100) % 100 == i % 100;
    assert (i + 100) % 10 == i % 10;
  }

  /** The ranks the page shows for the usual and the tricky cases. */
  lemma OrdinalSuffixExamples()
    ensures OrdinalSuffix(1) == "st" && OrdinalSuffix(21) == "st" && OrdinalSuffix(101) == "st"
    ensures OrdinalSuffix(2) == "nd" && OrdinalSuffix(22) == "nd"
    ensures OrdinalSuffix(3) == "rd" && OrdinalSuffix(23) == "rd"
    ensures OrdinalSuffix(11) == "th" && OrdinalSuffix(12) == "th" && OrdinalSuffix(13) == "th"
    ensures OrdinalSuffix(111) == "th" && OrdinalSuffix(112) == "th" && OrdinalSuffix(113) == "th"
  {
  }

  // ---------------------------------------------------------------------------
  // Folding the workout track into per-exercise totals

  /** One entry of the user's workout track; `points` may be missing. */
  datatype TrackEntry = TrackEntry(name: string, points: Option<int>)

  /** `points || 0`. */
  function PointsOf(e: TrackEntry): int
  {
    e.points.GetOr(0)
  }

  /** The exercise names occurring in a track. */
  function NamesIn(track: seq<TrackEntry>): (names: set<string>)
    ensures forall i :: 0 <= i < |track| ==> track[i].name in names
  {
    if track == [] then {}
    else NamesIn(track[..|track| - 1]) + {track[|track| - 1].name}
  }

  /** A name is in `NamesIn(track)` exactly when some entry of the track carries it. */
  lemma {:induction false} NamesInExactly(track: seq<TrackEntry>, n: string)
    ensures n in NamesIn(track) <==> exists i :: 0 <= i < |track| && track[i].name == n
  {
    if track != [] {
      var prefix := track[..|track| - 1];
      NamesInExactly(prefix, n);
      if n in NamesIn(prefix) {
        var i :| 0 <= i < |prefix| && prefix[i].name == n;
        assert track[i].name == n;
      }
      if exists i :: 0 <= i < |track| && track[i].name == n {
        var i :| 0 <= i < |track| && track[i].name == n;
        if i < |prefix| {
          assert prefix[i].name == n;
        }
      }
    }
  }

  /** The sum of the points of the track entries named `n`. */
  function PointsFor(track: seq<TrackEntry>, n: string): int
  {
    if track == [] then 0
    else PointsFor(track[..|track| - 1], n)
         + (if track[|track| - 1].name == n then PointsOf(track[|track| - 1]) else 0)
  }

  /** Extending a prefix of the track by one entry adds that entry's name and points. */
  lemma TrackPrefixStep(track: seq<TrackEntry>, i: nat)
    requires i < |track|
    ensures NamesIn(track[..i + 1]) == NamesIn(track[..i]) + {track[i].name}
    ensures forall n :: PointsFor(track[..i + 1], n) ==
                        PointsFor(track[..i], n) + (if track[i].name == n then PointsOf(track[i]) else 0)
  {
    assert track[..i + 1][..i] == track[..i];
  }

  /** A name that does not occur in a track has no points in it. */
  lemma {:induction false} PointsForAbsent(track: seq<TrackEntry>, n: string)
    requires n !in NamesIn(track)
    ensures PointsFor(track, n) == 0
  {
    if track != [] {
      PointsForAbsent(track[..|track| - 1], n);
    }
  }

  /** The sum of all points of a track. */
  function TotalPoints(track: seq<TrackEntry>): int
  {
    if track == [] then 0 else TotalPoints(track[..|track| - 1]) + PointsOf(track[|track| - 1])
  }

  /** The dictionary the page derives from a track: each name to its total. */
  function Totals(track: seq<TrackEntry>): (m: map<string, int>)
    ensures m.Keys == NamesIn(track)
  {
    map n | n in NamesIn(track) :: PointsFor(track, n)
  }

  /**
   * The aggregation loop: for each entry, add its points to the name's total
   * if that total is truthy (present and non-zero), otherwise (re)set the total
   * to the entry's points. The result maps exactly the names of the track, each
   * to the sum of its points; the overwrite of a zero total loses nothing.
   */
  method AggregateTrack(track: seq<TrackEntry>) returns (totals: map<string, int>)
    ensures totals.Keys == NamesIn(track)
    ensures forall n :: n in totals ==> totals[n] == PointsFor(track, n)
    ensures totals == Totals(track)
  {
    totals := map[];
    var i := 0;
    while i < |track|
      invariant 0 <= i <= |track|
      invariant totals.Keys == NamesIn(track[..i])
      invariant forall n :: n in totals ==> totals[n] == PointsFor(track[..i], n)
    {
      var e := track[i];
      ghost var before := totals;
      TrackPrefixStep(track, i);
      if e.name in totals && totals[e.name] != 0 {
        totals := totals[e.name := totals[e.name] + PointsOf(e)];
      } else {
        totals := totals[e.name := PointsOf(e)];
      }
      forall n | n in totals ensures totals[n] == PointsFor(track[..i + 1], n) {
        if n != e.name {
          assert n in NamesIn(track[..i]);
        } else if n !in before {
          PointsForAbsent(track[..i], n);
        }
      }
      i := i + 1;
    }
    assert track[..i] == track;
  }

  /** The names of a track in order of first occurrence: the key order of the totals dictionary. */
  function FirstOccurrences(track: seq<TrackEntry>): (keys: seq<string>)
    ensures forall n :: n in keys <==> n in NamesIn(track)
  {
    if track == [] then []
    else
      var keys := FirstOccurrences(track[..|track| - 1]);
      if track[|track| - 1].name in keys then keys else keys + [track[|track| - 1].name]
  }

  predicate Distinct<T(==)>(s: seq<T>)
  {
    forall i, j :: 0 <= i < j < |s| ==> s[i] != s[j]
  }

  /** No name is listed twice among the first occurrences. */
  lemma {:induction false} FirstOccurrencesDistinct(track: seq<TrackEntry>)
    ensures Distinct(FirstOccurrences(track))
  {
    if track != [] {
      FirstOccurrencesDistinct(track[..|track| - 1]);
    }
  }

  /** The sum, over a list of names, of each name's total in the track. */
  function SumOfTotals(names: seq<string>, track: seq<TrackEntry>): int
  {
    if names == [] then 0 else PointsFor(track, names[0]) + SumOfTotals(names[1..], track)
  }

  /** Dropping the last track entry changes nothing for a list of names not containing its name. */
  lemma {:induction false} SumOfTotalsOtherName(names: seq<string>, track: seq<TrackEntry>)
    requires track != [] && track[|track| - 1].name !in names
    ensures SumOfTotals(names, track) == SumOfTotals(names, track[..|track| - 1])
  {
    if names != [] {
      SumOfTotalsOtherName(names[1..], track);
    }
  }

  /** Dropping the last track entry takes its points off once, from the one name that matches it. */
  lemma {:induction false} SumOfTotalsLastEntry(names: seq<string>, track: seq<TrackEntry>)
    requires track != [] && Distinct(names) && track[|track| - 1].name in names
    ensures SumOfTotals(names, track)
         == SumOfTotals(names, track[..|track| - 1]) + PointsOf(track[|track| - 1])
  {
    var last := track[|track| - 1];
    if names[0] == last.name {
      assert last.name !in names[1..];
      SumOfTotalsOtherName(names[1..], track);
    } else {
      SumOfTotalsLastEntry(names[1..], track);
    }
  }

  /** Summing the per-name totals over a list naming each exercise once gives all the track's points. */
  lemma {:induction false} SumOfTotalsConserves(names: seq<string>, track: seq<TrackEntry>)
    requires Distinct(names)
    requires forall n :: n in NamesIn(track) ==> n in names
    ensures SumOfTotals(names, track) == TotalPoints(track)
    decreases |track|
  {
    if track == [] {
      SumOfTotalsEmptyTrack(names);
    } else {
      var prefix := track[..|track| - 1];
      assert forall n :: n in NamesIn(prefix) ==> n in NamesIn(track);
      SumOfTotalsConserves(names, prefix);
      SumOfTotalsLastEntry(names, track);
    }
  }

  lemma {:induction false} SumOfTotalsEmptyTrack(names: seq<string>)
    ensures SumOfTotals(names, []) == 0
  {
    if names != [] {
      SumOfTotalsEmptyTrack(names[1..]);
    }
  }

  /** Aggregation conserves points: the totals, summed in key order, add up to all points of the track. */
  lemma AggregationConservesPoints(track: seq<TrackEntry>)
    ensures SumOfTotals(FirstOccurrences(track), track) == TotalPoints(track)
  {
    FirstOccurrencesDistinct(track);
    SumOfTotalsConserves(FirstOccurrences(track), track);
  }

  // ---------------------------------------------------------------------------
  // Ranking the totals

  /** The list `keys` is sorted by non-increasing total. */
  ghost predicate SortedByTotal(keys: seq<string>, totals: map<string, int>)
    requires forall k :: k in keys ==> k in totals
  {
    forall i, j :: 0 <= i < j < |keys| ==> totals[keys[i]] >= totals[keys[j]]
  }

  /** The keys of `keys` whose total is `v`, in their order. */
  function WithTotal(keys: seq<string>, totals: map<string, int>, v: int): seq<string>
    requires forall k :: k in keys ==> k in totals
  {
    if keys == [] then []
    else (if totals[keys[0]] == v then [keys[0]] else []) + WithTotal(keys[1..], totals, v)
  }

  /**
   * One step of a stable sort by non-increasing total: `k` goes before the
   * first key whose total does not exceed its own.
   */
  function InsertByTotal(k: string, sorted: seq<string>, totals: map<string, int>): (r: seq<string>)
    ensures multiset(r) == multiset(sorted) + multiset{k}
  {
    if sorted == [] || sorted[0] !in totals || k !in totals || totals[sorted[0]] <= totals[k] then
      [k] + sorted
    else
      assert sorted == [sorted[0]] + sorted[1..];
      [sorted[0]] + InsertByTotal(k, sorted[1..], totals)
  }

  /** Inserting into a list sorted by total keeps it sorted. */
  lemma {:induction false} InsertKeepsSorted(k: string, sorted: seq<string>, totals: map<string, int>)
    requires k in totals && forall x :: x in sorted ==> x in totals
    requires SortedByTotal(sorted, totals)
    ensures forall x :: x in InsertByTotal(k, sorted, totals) ==> x in totals
    ensures SortedByTotal(InsertByTotal(k, sorted, totals), totals)
  {
    var r := InsertByTotal(k, sorted, totals);
    InsertMembers(k, sorted, totals);
    if sorted != [] && totals[sorted[0]] > totals[k] {
      var rest := InsertByTotal(k, sorted[1..], totals);
      InsertKeepsSorted(k, sorted[1..], totals);
      InsertMembers(k, sorted[1..], totals);
      assert r == [sorted[0]] + rest;
      forall i, j | 0 <= i < j < |r| ensures totals[r[i]] >= totals[r[j]] {
        if i == 0 {
          assert r[j] == rest[j - 1];
          assert r[j] == k || r[j] in sorted[1..];
        } else {
          assert r[i] == rest[i - 1] && r[j] == rest[j - 1];
        }
      }
    }
  }

  /** The keys after insertion are the inserted key and the keys already there. */
  lemma InsertMembers(k: string, sorted: seq<string>, totals: map<string, int>)
    ensures forall x :: x in InsertByTotal(k, sorted, totals) <==> x == k || x in sorted
  {
  }

  /** Inserting `k` puts it in front of the keys of equal total and moves no other key past one of equal total. */
  lemma {:induction false} InsertIsStable(k: string, sorted: seq<string>, totals: map<string, int>, v: int)
    requires k in totals && forall x :: x in sorted ==> x in totals
    requires SortedByTotal(sorted, totals)
    ensures forall x :: x in InsertByTotal(k, sorted, totals) ==> x in totals
    ensures WithTotal(InsertByTotal(k, sorted, totals), totals, v)
         == (if totals[k] == v then [k] else []) + WithTotal(sorted, totals, v)
  {
    InsertKeepsSorted(k, sorted, totals);
    var r := InsertByTotal(k, sorted, totals);
    if sorted == [] || totals[sorted[0]] <= totals[k] {
      assert r[1..] == sorted;
    } else {
      var rest := InsertByTotal(k, sorted[1..], totals);
      InsertIsStable(k, sorted[1..], totals, v);
      assert r == [sorted[0]] + rest && r[1..] == rest;
      assert WithTotal(r, totals, v)
          == (if totals[sorted[0]] == v then [sorted[0]] else []) + WithTotal(rest, totals, v);
      if totals[k] == v {
        WithTotalAllAbove(sorted, totals, v);
      }
    }
  }

  /** In a list sorted by total, nothing below a key's total appears before a bigger one. */
  lemma WithTotalAllAbove(sorted: seq<string>, totals: map<string, int>, v: int)
    requires forall x :: x in sorted ==> x in totals
    requires SortedByTotal(sorted, totals) && sorted != [] && totals[sorted[0]] > v
    ensures WithTotal(sorted, totals, v) == WithTotal(sorted[1..], totals, v)
  {
  }

  /**
   * `[...Object.keys(overview)].sort((n1, n2) => overview[n2] - overview[n1])`:
   * a permutation of the keys, by non-increasing total, keeping the original
   * order among keys of equal total (the sort is stable).
   */
  function SortByTotal(keys: seq<string>, totals: map<string, int>): (r: seq<string>)
    requires forall k :: k in keys ==> k in totals
    ensures multiset(r) == multiset(keys)
    ensures forall x :: x in r ==> x in totals
    ensures SortedByTotal(r, totals)
    ensures forall v :: WithTotal(r, totals, v) == WithTotal(keys, totals, v)
  {
    if keys == [] then []
    else
      var rest := SortByTotal(keys[1..], totals);
      assert keys == [keys[0]] + keys[1..];
      InsertKeepsSorted(keys[0], rest, totals);
      forall v ensures WithTotal(InsertByTotal(keys[0], rest, totals), totals, v)
                       == WithTotal(keys, totals, v) {
        InsertIsStable(keys[0], rest, totals, v);
      }
      InsertByTotal(keys[0], rest, totals)
  }

  /** One card of the overview list: an exercise and its 1-based rank. */
  datatype RankedExercise = RankedExercise(name: string, rank: nat)

  /** The exercise names of a ranked list, in list order. */
  function Names(ranked: seq<RankedExercise>): (names: seq<string>)
    ensures |names| == |ranked|
    ensures forall i :: 0 <= i < |ranked| ==> names[i] == ranked[i].name
  {
    if ranked == [] then [] else [ranked[0].name] + Names(ranked[1..])
  }

  /**
   * `.map((name, i) => ... rank={i + 1} ...)` over the sorted keys: the cards
   * carry the ranks 1..n in list order, name every key exactly as often as it
   * occurs, and go by non-increasing total.
   */
  function RankExercises(keys: seq<string>, totals: map<string, int>): (r: seq<RankedExercise>)
    requires forall k :: k in keys ==> k in totals
    ensures |r| == |keys|
    ensures forall i :: 0 <= i < |r| ==> r[i].rank == i + 1
    ensures multiset(Names(r)) == multiset(keys)
    ensures forall x :: x in Names(r) ==> x in totals
    ensures SortedByTotal(Names(r), totals)
    ensures Names(r) == SortByTotal(keys, totals)
  {
    var sorted := SortByTotal(keys, totals);
    assert |sorted| == |multiset(sorted)| == |keys|;
    NumberFrom(sorted, 1)
  }

  /** Numbers the cards of `names` consecutively, starting at `first`. */
  function NumberFrom(names: seq<string>, first: nat): (r: seq<RankedExercise>)
    ensures Names(r) == names
    ensures forall i :: 0 <= i < |r| ==> r[i].rank == first + i
  {
    if names == [] then []
    else
      var rest := NumberFrom(names[1..], first + 1);
      assert Names([RankedExercise(names[0], first)] + rest) == [names[0]] + Names(rest);
      [RankedExercise(names[0], first)] + rest
  }

  /** The overview list of a track names every exercise of the track exactly once. */
  lemma OverviewOfTrack(track: seq<TrackEntry>)
    ensures var names := Names(RankExercises(FirstOccurrences(track), Totals(track)));
      && Distinct(names)
      && (forall n :: n in names <==> n in NamesIn(track))
  {
    var keys := FirstOccurrences(track);
    var names := Names(RankExercises(keys, Totals(track)));
    FirstOccurrencesDistinct(track);
    DistinctPermutation(keys, names);
    forall n ensures n in names <==> n in keys {
      assert n in names <==> n in multiset(names);
      assert n in keys <==> n in multiset(keys);
    }
  }

  /** A permutation of a list without repetitions has none either. */
  lemma DistinctPermutation<T>(s: seq<T>, t: seq<T>)
    requires Distinct(s) && multiset(s) == multiset(t)
    ensures Distinct(t)
  {
    forall i, j | 0 <= i < j < |t| ensures t[i] != t[j] {
      if t[i] == t[j] {
        assert multiset(t)[t[i]] >= 2 by {
          assert t == t[..i] + [t[i]] + t[i + 1..j] + [t[j]] + t[j + 1..];
        }
        DistinctCount(s, t[i]);
        assert false;
      }
    }
  }

  lemma {:induction false} DistinctCount<T>(s: seq<T>, x: T)
    requires Distinct(s)
    ensures multiset(s)[x] <= 1
  {
    if s != [] {
      DistinctCount(s[1..], x);
      assert s == [s[0]] + s[1..];
      assert s[0] !in s[1..];
    }
  }

  // ---------------------------------------------------------------------------
  // Level thresholds

  /** `staticInfo.others.levels || [0]`: the points each level spans. */
  function LevelsOrDefault(levels: Option<seq<int>>): seq<int>
  {
    levels.GetOr([0])
  }

  /** The points at which the user's level began: the sum of the spans of the levels below it. */
  function PrevMaxPoints(levels: Option<seq<int>>, level: int): (r: int)
    ensures var l := LevelsOrDefault(levels);
      level >= 0 ==> r == Sum(l[..if level < |l| then level else |l|])
  {
    var l := LevelsOrDefault(levels);
    assert level > |l| ==> JsSlice(l, 0, level) == l[..|l|];
    Sum(JsSlice(l, 0, level))
  }

  /** The points at which the user's level ends: the sum of the spans up to and including it. */
  function MaxPoints(levels: Option<seq<int>>, level: int): (r: int)
    ensures var l := LevelsOrDefault(levels);
      level >= 0 ==> r == PrevMaxPoints(levels, level) + (if level < |l| then l[level] else 0)
  {
    var l := LevelsOrDefault(levels);
    if 0 <= level < |l| then
      SumPrefixStep(l, level);
      Sum(JsSlice(l, 0, level + 1))
    else
      assert level >= |l| ==> JsSlice(l, 0, level + 1) == l[..|l|] == JsSlice(l, 0, level);
      Sum(JsSlice(l, 0, level + 1))
  }

  /**
   * For a non-negative level, the level starts at the sum of the first
   * `min(level, |levels|)` spans and ends one span later, or at the same point
   * past the last configured level; with non-negative spans it never ends
   * before it starts.
   */
  lemma LevelThresholds(levels: Option<seq<int>>, level: int)
    requires level >= 0
    ensures var l := LevelsOrDefault(levels);
      && PrevMaxPoints(levels, level) == Sum(l[..if level < |l| then level else |l|])
      && MaxPoints(levels, level)
         == PrevMaxPoints(levels, level) + (if level < |l| then l[level] else 0)
      && ((forall i :: 0 <= i < |l| ==> l[i] >= 0) ==>
            PrevMaxPoints(levels, level) <= MaxPoints(levels, level))
  {
    var l := LevelsOrDefault(levels);
    if level < |l| {
      SumPrefixStep(l, level);
    } else {
      assert l[..|l|] == l;
    }
  }

  /** With non-negative spans, a higher level never starts below a lower one. */
  lemma PrevMaxPointsMonotone(levels: Option<seq<int>>, low: int, high: int)
    requires 0 <= low <= high
    requires forall i :: 0 <= i < |LevelsOrDefault(levels)| ==> LevelsOrDefault(levels)[i] >= 0
    ensures PrevMaxPoints(levels, low) <= PrevMaxPoints(levels, high)
  {
    var l := LevelsOrDefault(levels);
    var j := if low < |l| then low else |l|;
    var k := if high < |l| then high else |l|;
    LevelThresholds(levels, low);
    LevelThresholds(levels, high);
    SumPrefixMonotone(l, j, k);
  }

  // ---------------------------------------------------------------------------
  // Axis labels of the weekly chart

  /** The axis `tickFormat`: `YYYYMMDD` becomes `MM/DD` (by slicing, so shorter text gives shorter parts). */
  function TickFormat(t: string): (r: string)
    ensures |r| <= 5
    ensures |t| >= 8 ==> r == t[4..6] + "/" + t[6..8]
  {
    JsSlice(t, 4, 6) + "/" + JsSlice(t, 6, 8)
  }

  /** On an eight-character key the text is characters 4-5, a slash, and characters 6-7. */
  lemma TickFormatOfDateKey(t: string)
    requires |t| == 8
    ensures TickFormat(t) == t[4..6] + "/" + t[6..8]
    ensures |TickFormat(t)| == 5 && TickFormat(t)[2] == '/'
  {
  }

  /** The chart's key for a date: four-digit year, two-digit month, two-digit day. */
  function DateKey(year: nat, month: nat, day: nat): (t: string)
    requires year < 10000 && month < 100 && day < 100
    ensures |t| == 8 && IsDigits(t)
  {
    Pad4(year) + Pad2(month) + Pad2(day)
  }

  /** The text of a date's key is its zero-padded month and day, and they read back as that month and day. */
  lemma TickFormatShowsMonthAndDay(year: nat, month: nat, day: nat)
    requires year < 10000 && month < 100 && day < 100
    ensures TickFormat(DateKey(year, month, day)) == Pad2(month) + "/" + Pad2(day)
    ensures var text := TickFormat(DateKey(year, month, day));
      IsDigits(text[..2]) && IsDigits(text[3..])
      && DigitsValue(text[..2]) == month && DigitsValue(text[3..]) == day
  {
    var t := DateKey(year, month, day);
    assert t[4..6] == Pad2(month);
    assert t[6..8] == Pad2(day);
    TickFormatOfDateKey(t);
    var text := Pad2(month) + "/" + Pad2(day);
    assert text[..2] == Pad2(month) && text[3..] == Pad2(day);
  }
}
