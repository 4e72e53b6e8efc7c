/** What the pipeline derives from the records of one section (a CourseData entry)
    and from the list of all courses (the final order, the department list, the
    summary statistics and the three top-10 selections). */
module Report {
  import opened Wrappers
  import opened Seqs
  import opened StableSort
  import opened Lex
  import opened JsNumber
  import opened Utils
  import opened Extract
  import Forecast

  datatype Trend = Up | Down | Stable

  /** One entry of a course's price history. */
  datatype TermPrice = TermPrice(term: string, price: int)

  /** CourseData. predictedPrice is None where the forecast is NaN (every record of the
      section in one term); priceChange is the change in percent, rounded to a tenth. */
  datatype CourseData = CourseData(
    section: string,
    courseCode: string,
    department: string,
    prices: seq<TermPrice>,
    avgPrice: int,
    latestPrice: int,
    predictedPrice: Option<int>,
    priceChange: real,
    trend: Trend)

  // ----- averages -----

  function SumInts(s: seq<int>): int {
    if s == [] then 0 else SumInts(s[..|s| - 1]) + s[|s| - 1]
  }

  lemma {:induction false} SumIntsBounds(s: seq<int>, lo: int, hi: int)
    requires forall i :: 0 <= i < |s| ==> lo <= s[i] <= hi
    ensures |s| * lo <= SumInts(s) <= |s| * hi
    decreases |s|
  {
    if s != [] {
      var n := |s| - 1;
      SumIntsBounds(s[..n], lo, hi);
      assert lo <= s[n] <= hi;
      assert (n + 1) * lo == n * lo + lo && (n + 1) * hi == n * hi + hi;
    }
  }

  /** `Math.round(sum / length)`: the mean of a non-empty list of prices, rounded half up. */
  function Average(s: seq<int>): int
    requires |s| > 0
  {
    Round(SumInts(s) as real / |s| as real)
  }

  lemma MeanBetween(n: real, total: real, lo: real, hi: real)
    requires n > 0.0 && n * lo <= total <= n * hi
    ensures lo <= total / n <= hi
  {
    var m := total / n;
    assert total == n * m;
  }

  /** The rounded mean lies between the least and the greatest price. */
  lemma AverageBetween(s: seq<int>, lo: int, hi: int)
    requires |s| > 0
    requires forall i :: 0 <= i < |s| ==> lo <= s[i] <= hi
    ensures lo <= Average(s) <= hi
  {
    SumIntsBounds(s, lo, hi);
    MeanBetween(|s| as real, SumInts(s) as real, lo as real, hi as real);
  }

  // ----- change and trend -----

  /** The change from the previous to the latest price in percent; 0 when the previous
      price is not positive. */
  function PriceChange(latest: int, previous: int): real {
    if previous > 0 then ((latest - previous) as real / previous as real) * 100.0 else 0.0
  }

  /** The trend of an (unrounded) change: more than 10 percent either way. */
  function TrendOf(change: real): Trend {
    if change > 10.0 then Up else if change < -10.0 then Down else Stable
  }

  lemma ChangeAlgebra(l: real, p: real, q: real)
    requires p > 0.0 && q == (l - p) / p
    ensures q * 100.0 > 10.0 <==> 10.0 * l > 11.0 * p
    ensures q * 100.0 < -10.0 <==> 10.0 * l < 9.0 * p
  {
    assert q * p == l - p;
  }

  /** The trend in whole numbers: up exactly when the latest price exceeds 110 percent of
      a positive previous price, down exactly when it is below 90 percent of it. */
  lemma TrendInWholeNumbers(latest: int, previous: int)
    ensures TrendOf(PriceChange(latest, previous)) == Up <==> previous > 0 && 10 * latest > 11 * previous
    ensures TrendOf(PriceChange(latest, previous)) == Down <==> previous > 0 && 10 * latest < 9 * previous
  {
    if previous > 0 {
      ChangeAlgebra(latest as real, previous as real, (latest - previous) as real / previous as real);
    }
  }

  lemma TrendExamples()
    ensures TrendOf(PriceChange(550, 500)) == Stable
    ensures TrendOf(PriceChange(600, 500)) == Up
    ensures TrendOf(PriceChange(400, 500)) == Down
    ensures TrendOf(PriceChange(700, 0)) == Stable
  {
    TrendInWholeNumbers(550, 500);
    TrendInWholeNumbers(600, 500);
    TrendInWholeNumbers(400, 500);
  }

  /** `Math.round(x * 10) / 10`: a whole number of tenths within half a tenth of x
      (the only such number, with a tie going to the larger one). */
  function RoundToTenth(x: real): (r: real)
    ensures (r * 10.0).Floor as real == r * 10.0
    ensures x - 0.05 < r <= x + 0.05
  {
    var k := Round(x * 10.0);
    assert (k as real / 10.0) * 10.0 == k as real;
    k as real / 10.0
  }

  // ----- one course -----

  /** A change of 12.34% is stored as 12.3, and ties go up: 10.25 and -10.25 become
      10.3 and -10.2. */
  lemma RoundToTenthExamples()
    ensures RoundToTenth(12.34) == 12.3
    ensures RoundToTenth(10.25) == 10.3
    ensures RoundToTenth(-10.25) == -10.2
  {
  }

  /** The sort key of `prices.sort((a, b) => a.termIndex - b.termIndex)`. */
  function TermIndexKey(r: PriceRecord): int { r.termIndex }

  function History(recs: seq<PriceRecord>): (h: seq<TermPrice>)
    ensures |h| == |recs|
    ensures forall i :: 0 <= i < |recs| ==> h[i] == TermPrice(recs[i].term, recs[i].price)
  {
    seq(|recs|, i requires 0 <= i < |recs| => TermPrice(recs[i].term, recs[i].price))
  }

  function Prices(recs: seq<PriceRecord>): (ps: seq<int>)
    ensures |ps| == |recs|
    ensures forall i :: 0 <= i < |recs| ==> ps[i] == recs[i].price
  {
    seq(|recs|, i requires 0 <= i < |recs| => recs[i].price)
  }

  function Points(recs: seq<PriceRecord>): (ps: seq<Forecast.Point>)
    ensures |ps| == |recs|
    ensures forall i :: 0 <= i < |recs| ==> ps[i] == Forecast.Point(recs[i].termIndex, recs[i].price)
  {
    seq(|recs|, i requires 0 <= i < |recs| => Forecast.Point(recs[i].termIndex, recs[i].price))
  }

  /** The course built from a section's records, already in term order. */
  function BuildCourse(section: string, recs: seq<PriceRecord>): CourseData
    requires |recs| > 0
  {
    var latest := recs[|recs| - 1].price;
    var previous := if |recs| > 1 then recs[|recs| - 2].price else latest;
    var change := PriceChange(latest, previous);
    CourseData(
      section,
      GetCourseCode(section),
      Department(section),
      History(recs),
      Average(Prices(recs)),
      latest,
      Forecast.PredictNextPrice(Points(recs)),
      RoundToTenth(change),
      TrendOf(change))
  }

  /** The course of a section whose records, in collection order, are `group`: the
      records are first sorted stably by termIndex. */
  function CourseOf(section: string, group: seq<PriceRecord>): CourseData
    requires |group| > 0
  {
    BuildCourse(section, SortBy(group, TermIndexKey))
  }

  /** The history is the section's records in term order: a rearrangement of the group,
      ordered by termIndex, records of one term in collection order. */
  lemma CourseHistory(section: string, group: seq<PriceRecord>)
    requires |group| > 0
    ensures var sorted := SortBy(group, TermIndexKey);
      && CourseOf(section, group).prices == History(sorted)
      && multiset(sorted) == multiset(group)
      && (forall i, j :: 0 <= i < j < |sorted| ==> sorted[i].termIndex <= sorted[j].termIndex)
      && forall k :: WithKey(sorted, TermIndexKey, k) == WithKey(group, TermIndexKey, k)
  {
    var sorted := SortBy(group, TermIndexKey);
    SortBySorted(group, TermIndexKey);
    forall k ensures WithKey(sorted, TermIndexKey, k) == WithKey(group, TermIndexKey, k) {
      SortByStable(group, TermIndexKey, k);
    }
  }

  /** The latest price comes from a record of the latest term of the section. */
  lemma CourseLatest(section: string, group: seq<PriceRecord>)
    requires |group| > 0
    ensures exists r :: r in group && r.price == CourseOf(section, group).latestPrice
              && forall r' :: r' in group ==> r'.termIndex <= r.termIndex
  {
    var sorted := SortBy(group, TermIndexKey);
    SortBySorted(group, TermIndexKey);
    var last := sorted[|sorted| - 1];
    assert last in multiset(sorted);
    forall r' | r' in group ensures r'.termIndex <= last.termIndex {
      assert r' in multiset(sorted);
      var j :| 0 <= j < |sorted| && sorted[j] == r';
    }
  }

  /** The rounded average lies between any bounds of the section's prices. */
  lemma CourseAverage(section: string, group: seq<PriceRecord>, lo: int, hi: int)
    requires |group| > 0
    requires forall r :: r in group ==> lo <= r.price <= hi
    ensures lo <= CourseOf(section, group).avgPrice <= hi
  {
    var sorted := SortBy(group, TermIndexKey);
    forall i | 0 <= i < |sorted| ensures lo <= Prices(sorted)[i] <= hi {
      assert sorted[i] in multiset(sorted);
    }
    AverageBetween(Prices(sorted), lo, hi);
  }

  /** The course code and department are prefixes of the section, the department a
      prefix of the course code; the forecast of two or more records is never negative. */
  lemma CourseFields(section: string, group: seq<PriceRecord>)
    requires |group| > 0
    ensures var c := CourseOf(section, group);
      var previous := if |group| > 1 then SortBy(group, TermIndexKey)[|group| - 2].price else c.latestPrice;
      && c.section == section
      && c.courseCode <= section && |c.courseCode| == Min(7, |section|)
      && c.department <= c.courseCode && |c.department| == Min(4, |section|)
      && (|group| >= 2 && c.predictedPrice.Some? ==> c.predictedPrice.value >= 0)
      && c.priceChange == RoundToTenth(PriceChange(c.latestPrice, previous))
      && c.trend == TrendOf(PriceChange(c.latestPrice, previous))
  {
    Forecast.DenominatorZero(Points(SortBy(group, TermIndexKey)));
  }

  // ----- the course list -----

  /** The sort key of `courses.sort((a, b) => b.latestPrice - a.latestPrice)`. */
  function LatestDescending(c: CourseData): int { -c.latestPrice }

  /** The final order of the courses. */
  function FinalOrder(courses: seq<CourseData>): seq<CourseData> {
    SortBy(courses, LatestDescending)
  }

  /** The final list is a rearrangement of the built courses, highest latest price first,
      courses with equal latest prices in build order. */
  lemma FinalOrderSpec(courses: seq<CourseData>)
    ensures multiset(FinalOrder(courses)) == multiset(courses)
    ensures forall i, j :: 0 <= i < j < |courses| ==>
              FinalOrder(courses)[i].latestPrice >= FinalOrder(courses)[j].latestPrice
    ensures forall k :: WithKey(FinalOrder(courses), LatestDescending, k) == WithKey(courses, LatestDescending, k)
  {
    SortBySorted(courses, LatestDescending);
    forall k ensures WithKey(FinalOrder(courses), LatestDescending, k) == WithKey(courses, LatestDescending, k) {
      SortByStable(courses, LatestDescending, k);
    }
  }

  /** `[...new Set(courses.map(c => c.department))].sort()` */
  function Departments(courses: seq<CourseData>): seq<string> {
    SortStrings(Distinct(seq(|courses|, i requires 0 <= i < |courses| => courses[i].department)))
  }

  /** The department list holds each department of a course exactly once, in strictly
      ascending order. */
  lemma DepartmentsSpec(courses: seq<CourseData>)
    ensures forall d :: d in Departments(courses) <==> exists c :: c in courses && c.department == d
    ensures forall i, j :: 0 <= i < j < |Departments(courses)| ==>
              LexLe(Departments(courses)[i], Departments(courses)[j])
              && !LexLe(Departments(courses)[j], Departments(courses)[i])
  {
    var all := seq(|courses|, i requires 0 <= i < |courses| => courses[i].department);
    var d := Distinct(all);
    var r := SortStrings(d);
    assert forall x :: x in r <==> x in multiset(d);
    forall x ensures x in r <==> exists c :: c in courses && c.department == x {
      if x in all {
        var i :| 0 <= i < |all| && all[i] == x;
        assert courses[i] in courses;
      }
      if exists c :: c in courses && c.department == x {
        var c :| c in courses && c.department == x;
        var i :| 0 <= i < |courses| && courses[i] == c;
        assert all[i] == x;
      }
    }
    SortStringsSorted(d);
    PermutationNoDuplicates(d, r);
    SortedDistinctStrictly(r);
  }

  /** A sequence without repeats holds each element at most once. */
  lemma {:induction false} OnceAtMost<T>(d: seq<T>, x: T)
    requires NoDuplicates(d)
    ensures multiset(d)[x] <= 1
    decreases |d|
  {
    if d != [] {
      var n := |d| - 1;
      assert d == d[..n] + [d[n]];
      OnceAtMost(d[..n], x);
      if d[n] == x {
        assert x !in d[..n];
      }
    }
  }

  /** An element at two positions occurs at least twice. */
  lemma TwiceAtLeast<T>(r: seq<T>, i: nat, j: nat)
    requires i < j < |r| && r[i] == r[j]
    ensures multiset(r)[r[i]] >= 2
  {
    var x := r[i];
    assert r == r[..i] + [x] + r[i + 1..j] + [x] + r[j + 1..];
  }

  /** A rearrangement of a sequence without repeats has no repeats. */
  lemma PermutationNoDuplicates<T>(d: seq<T>, r: seq<T>)
    requires NoDuplicates(d) && multiset(r) == multiset(d)
    ensures NoDuplicates(r)
  {
    forall i, j | 0 <= i < j < |r| ensures r[i] != r[j] {
      if r[i] == r[j] {
        TwiceAtLeast(r, i, j);
        OnceAtMost(d, r[i]);
        assert false;
      }
    }
  }

  // ----- statistics -----

  predicate IsFree(c: CourseData) { c.latestPrice == 0 }

  predicate IsHighDemand(c: CourseData) { c.latestPrice >= 500 }

  function LatestPrices(courses: seq<CourseData>): (ps: seq<int>)
    ensures |ps| == |courses|
    ensures forall i :: 0 <= i < |courses| ==> ps[i] == courses[i].latestPrice
  {
    seq(|courses|, i requires 0 <= i < |courses| => courses[i].latestPrice)
  }

  /** The stats object without its timestamp. avgPrice is None for an empty course list
      (the division yields NaN, written to JSON as null). */
  datatype Stats = Stats(
    totalCourses: nat,
    departments: nat,
    avgPrice: Option<int>,
    freeCourses: nat,
    highDemand: nat,
    termsAvailable: seq<string>)

  function StatsOf(courses: seq<CourseData>, terms: seq<string>): Stats {
    Stats(
      |courses|,
      |Departments(courses)|,
      if |courses| == 0 then None else Some(Average(LatestPrices(courses))),
      Count(courses, IsFree),
      Count(courses, IsHighDemand),
      terms)
  }

  /** Free and high-demand courses are disjoint, so together they are at most all
      courses; there are no more departments than courses; the average is absent exactly
      for an empty list. */
  lemma StatsSpec(courses: seq<CourseData>, terms: seq<string>)
    ensures var st := StatsOf(courses, terms);
      && st.totalCourses == |courses|
      && st.freeCourses + st.highDemand <= st.totalCourses
      && st.departments <= st.totalCourses
      && (st.avgPrice.None? <==> |courses| == 0)
  {
    CountDisjoint(courses);
    DepartmentsAtMost(courses);
  }

  /** The average latest price lies between any bounds of the latest prices. */
  lemma StatsAverage(courses: seq<CourseData>, terms: seq<string>, lo: int, hi: int)
    requires |courses| > 0
    requires forall c :: c in courses ==> lo <= c.latestPrice <= hi
    ensures StatsOf(courses, terms).avgPrice.Some?
    ensures lo <= StatsOf(courses, terms).avgPrice.value <= hi
  {
    forall i | 0 <= i < |courses| ensures lo <= LatestPrices(courses)[i] <= hi {
      assert courses[i] in courses;
    }
    AverageBetween(LatestPrices(courses), lo, hi);
  }

  lemma {:induction false} CountDisjoint(courses: seq<CourseData>)
    ensures Count(courses, IsFree) + Count(courses, IsHighDemand) <= |courses|
    decreases |courses|
  {
    if courses != [] {
      CountDisjoint(courses[..|courses| - 1]);
    }
  }

  lemma DepartmentsAtMost(courses: seq<CourseData>)
    ensures |Departments(courses)| <= |courses|
  {
    var all := seq(|courses|, i requires 0 <= i < |courses| => courses[i].department);
    DistinctAtMost(all);
    assert |SortStrings(Distinct(all))| == |multiset(SortStrings(Distinct(all)))|;
  }

  lemma {:induction false} DistinctAtMost(s: seq<string>)
    ensures |Distinct(s)| <= |s|
    decreases |s|
  {
    if s != [] {
      DistinctAtMost(s[..|s| - 1]);
    }
  }

  // ----- the printed selections -----

  /** The ten highest priced courses: the first ten of the final list. */
  function TopPriced(courses: seq<CourseData>): seq<CourseData> {
    Take(courses, 10)
  }

  /** A forecast above a positive latest price (NaN compares false). */
  predicate IsIncreasing(c: CourseData) {
    c.predictedPrice.Some? && c.predictedPrice.value > c.latestPrice && c.latestPrice > 0
  }

  /** `predictedPrice - latestPrice`, for a course with a forecast. */
  function ForecastIncrease(c: CourseData): int {
    if c.predictedPrice.Some? then c.predictedPrice.value - c.latestPrice else 0
  }

  /** The sort key of `(a, b) => (b.predictedPrice - b.latestPrice) - (a.predictedPrice - a.latestPrice)`. */
  function IncreaseDescending(c: CourseData): int { -ForecastIncrease(c) }

  function Increases(courses: seq<CourseData>): seq<CourseData> {
    Take(SortBy(Filter(courses, IsIncreasing), IncreaseDescending), 10)
  }

  /** Cheap but not free, with at least three terms of history. */
  predicate IsGem(c: CourseData) {
    c.latestPrice > 0 && c.latestPrice < 100 && |c.prices| >= 3
  }

  function AvgAscending(c: CourseData): int { c.avgPrice }

  function Gems(courses: seq<CourseData>): seq<CourseData> {
    Take(SortBy(Filter(courses, IsGem), AvgAscending), 10)
  }

  /** Filter, stable sort and `.slice(0, n)` keep at most n qualifying elements, in
      order of key. */
  lemma SelectionKept<T(!new)>(s: seq<T>, p: T -> bool, key: T -> int, n: nat)
    ensures var r := Take(SortBy(Filter(s, p), key), n);
      && |r| == Min(n, |Filter(s, p)|)
      && (forall x :: x in r ==> x in s && p(x))
      && SortedBy(r, key)
  {
    var t := SortBy(Filter(s, p), key);
    SortBySorted(Filter(s, p), key);
    forall x | x in Take(t, n) ensures x in s && p(x) {
      assert x in multiset(t);
    }
  }

  /** ... and no qualifying element left out has a smaller key than one kept. */
  lemma SelectionLeast<T(!new)>(s: seq<T>, p: T -> bool, key: T -> int, n: nat)
    ensures var r := Take(SortBy(Filter(s, p), key), n);
      forall x, y :: x in r && y in multiset(Filter(s, p)) - multiset(r) ==> key(x) <= key(y)
  {
    var f := Filter(s, p);
    var m := Min(n, |f|);
    SortedPrefixSmallest(f, key, m);
    assert Take(SortBy(f, key), n) == SortBy(f, key)[..m];
  }

  /** At most ten courses with a forecast above a positive latest price, largest
      forecast increase first. */
  lemma IncreasesSpec(courses: seq<CourseData>)
    ensures |Increases(courses)| <= 10
    ensures forall c :: c in Increases(courses) ==> c in courses && IsIncreasing(c)
    ensures forall i, j :: 0 <= i < j < |Increases(courses)| ==>
              ForecastIncrease(Increases(courses)[i]) >= ForecastIncrease(Increases(courses)[j])
  {
    SelectionKept(courses, IsIncreasing, IncreaseDescending, 10);
  }

  /** No qualifying course left out of the increases has a larger forecast increase than
      one listed. */
  lemma IncreasesLargest(courses: seq<CourseData>)
    ensures forall c, d :: c in Increases(courses) && d in multiset(Filter(courses, IsIncreasing)) - multiset(Increases(courses))
              ==> ForecastIncrease(c) >= ForecastIncrease(d)
  {
    var r := Increases(courses);
    SelectionLeast(courses, IsIncreasing, IncreaseDescending, 10);
    forall c, d | c in r && d in multiset(Filter(courses, IsIncreasing)) - multiset(r)
      ensures ForecastIncrease(c) >= ForecastIncrease(d)
    {
      assert IncreaseDescending(c) <= IncreaseDescending(d);
    }
  }

  /** At most ten courses priced between 1 and 99 with three or more terms, lowest average
      first. */
  lemma GemsSpec(courses: seq<CourseData>)
    ensures |Gems(courses)| <= 10
    ensures forall c :: c in Gems(courses) ==> c in courses && 0 < c.latestPrice < 100 && |c.prices| >= 3
    ensures forall i, j :: 0 <= i < j < |Gems(courses)| ==> Gems(courses)[i].avgPrice <= Gems(courses)[j].avgPrice
  {
    SelectionKept(courses, IsGem, AvgAscending, 10);
  }

  /** No gem left out has a lower average than one listed. */
  lemma GemsCheapest(courses: seq<CourseData>)
    ensures forall c, d :: c in Gems(courses) && d in multiset(Filter(courses, IsGem)) - multiset(Gems(courses))
              ==> c.avgPrice <= d.avgPrice
  {
    var r := Gems(courses);
    SelectionLeast(courses, IsGem, AvgAscending, 10);
    forall c, d | c in r && d in multiset(Filter(courses, IsGem)) - multiset(r)
      ensures c.avgPrice <= d.avgPrice
    {
      assert AvgAscending(c) <= AvgAscending(d);
    }
  }

  /** The top-priced list is the start of the final list, so no course left out of it
      has a higher latest price than one in it. */
  lemma TopPricedSpec(courses: seq<CourseData>)
    ensures var top := TopPriced(FinalOrder(courses));
      && |top| == Min(10, |courses|)
      && forall c, d :: c in top && d in multiset(courses) - multiset(top) ==> c.latestPrice >= d.latestPrice
  {
    var n := Min(10, |courses|);
    SortedPrefixSmallest(courses, LatestDescending, n);
    assert TopPriced(FinalOrder(courses)) == SortBy(courses, LatestDescending)[..n];
  }
}
