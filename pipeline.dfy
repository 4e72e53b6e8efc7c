/** The driver of the fetch script (`main`): the term registry and its index map, the
    collection of every term's records, the grouping by section, the per-section
    course build and the final sort, ending in the published course list, department
    list, statistics and the three printed selections. */
module Pipeline {
  import opened Wrappers
  import opened Seqs
  import opened StableSort
  import opened ArraySort
  import opened Extract
  import opened Report

  /** The terms of CLEARING_PRICE_FILES, oldest first. */
  const Terms: seq<string> := [
    "Fall2013", "Spring2014", "Fall2014", "Spring2015", "Fall2015", "Spring2016",
    "Fall2016", "Spring2017", "Fall2017", "Spring2018", "Fall2018", "Spring2019",
    "Fall2019", "Spring2020", "Fall2020", "Spring2021", "Fall2021", "Spring2022",
    "Fall2022", "Spring2023", "Fall2023", "Spring2024", "Fall2024", "Spring2025",
    "Fall2025", "Spring2026"]

  // ----- term indices -----

  /** `termIndexMap` after `forEach((f, i) => termIndexMap.set(f.term, i))`: a repeated
      term keeps its last index. */
  function TermIndexMap(terms: seq<string>): map<string, int> {
    if terms == [] then map[]
    else TermIndexMap(terms[..|terms| - 1])[terms[|terms| - 1] := |terms| - 1]
  }

  /** The map holds exactly the registered terms, each at the last position it has. */
  lemma {:induction false} TermIndexMapSpec(terms: seq<string>)
    ensures forall t :: t in TermIndexMap(terms) <==> t in terms
    ensures forall t :: t in TermIndexMap(terms) ==>
              && 0 <= TermIndexMap(terms)[t] < |terms|
              && terms[TermIndexMap(terms)[t]] == t
              && forall j :: TermIndexMap(terms)[t] < j < |terms| ==> terms[j] != t
    decreases |terms|
  {
    if terms != [] {
      var n := |terms| - 1;
      TermIndexMapSpec(terms[..n]);
      assert terms == terms[..n] + [terms[n]];
    }
  }

  /** With distinct terms, every term is mapped to its own position. */
  lemma DistinctTermIndex(terms: seq<string>, i: nat)
    requires NoDuplicates(terms) && i < |terms|
    ensures terms[i] in TermIndexMap(terms) && TermIndexMap(terms)[terms[i]] == i
  {
    TermIndexMapSpec(terms);
  }

  method BuildTermIndexMap(terms: seq<string>) returns (m: map<string, int>)
    ensures m == TermIndexMap(terms)
  {
    m := map[];
    for i := 0 to |terms|
      invariant m == TermIndexMap(terms[..i])
    {
      assert terms[..i + 1][..i] == terms[..i];
      m := m[terms[i] := i];
    }
    assert terms[..|terms|] == terms;
  }

  /** `termIndexMap.get(term) || 0` */
  function IndexOr0(m: map<string, int>, term: string): int {
    if term in m then m[term] else 0
  }

  // ----- collection -----

  /** The records of one term with their termIndex set. */
  function Stamp(ps: seq<PriceRecord>, idx: int): (r: seq<PriceRecord>)
    ensures |r| == |ps|
    ensures forall i :: 0 <= i < |ps| ==> r[i] == ps[i].(termIndex := idx)
  {
    seq(|ps|, i requires 0 <= i < |ps| => ps[i].(termIndex := idx))
  }

  /** What one term adds to `allPrices`: nothing when its download failed (None). */
  function TermRecords(term: string, fetched: Option<Sheet>, m: map<string, int>): seq<PriceRecord> {
    if fetched.Some? then Stamp(ParseSheet(fetched.value, term), IndexOr0(m, term)) else []
  }

  /** `allPrices` after the download loop, `fetched[i]` being the decoded sheet of
      `terms[i]`. */
  function Collected(terms: seq<string>, fetched: seq<Option<Sheet>>, m: map<string, int>): seq<PriceRecord>
    requires |fetched| == |terms|
  {
    if terms == [] then []
    else
      var n := |terms| - 1;
      Collected(terms[..n], fetched[..n], m) + TermRecords(terms[n], fetched[n], m)
  }

  /** `prices.forEach((p) => { p.termIndex = idx })` */
  method StampTermIndex(prices: seq<PriceRecord>, idx: int) returns (stamped: seq<PriceRecord>)
    ensures stamped == Stamp(prices, idx)
  {
    stamped := [];
    for k := 0 to |prices|
      invariant stamped == Stamp(prices[..k], idx)
    {
      stamped := stamped + [prices[k].(termIndex := idx)];
    }
    assert prices[..|prices|] == prices;
  }

  /** One iteration of the download loop: the stamped records of a decoded sheet, none
      for a failed download. */
  method FetchTerm(term: string, fetched: Option<Sheet>, m: map<string, int>) returns (recs: seq<PriceRecord>)
    ensures recs == TermRecords(term, fetched, m)
  {
    recs := [];
    if fetched.Some? {
      var prices := ParseXlsx(fetched.value, term);
      recs := StampTermIndex(prices, IndexOr0(m, term));
    }
  }

  method Collect(terms: seq<string>, fetched: seq<Option<Sheet>>, m: map<string, int>)
    returns (all: seq<PriceRecord>)
    requires |fetched| == |terms|
    ensures all == Collected(terms, fetched, m)
  {
    all := [];
    for i := 0 to |terms|
      invariant all == Collected(terms[..i], fetched[..i], m)
    {
      assert terms[..i + 1][..i] == terms[..i] && fetched[..i + 1][..i] == fetched[..i];
      var recs := FetchTerm(terms[i], fetched[i], m);
      all := all + recs;
    }
    assert terms[..|terms|] == terms && fetched[..|fetched|] == fetched;
  }

  /** Every collected record comes from a term whose download succeeded, carries that
      term's label and the index the map gives it, and has a valid section. */
  lemma {:induction false} CollectedFrom(terms: seq<string>, fetched: seq<Option<Sheet>>, m: map<string, int>)
    requires |fetched| == |terms|
    requires forall i :: 0 <= i < |terms| ==> IndexOr0(m, terms[i]) == i
    ensures forall r :: r in Collected(terms, fetched, m) ==>
              && IsValidSection(r.section)
              && 0 <= r.termIndex < |terms|
              && fetched[r.termIndex].Some?
              && terms[r.termIndex] == r.term
    decreases |terms|
  {
    if terms != [] {
      var n := |terms| - 1;
      CollectedFrom(terms[..n], fetched[..n], m);
      forall r | r in TermRecords(terms[n], fetched[n], m)
        ensures IsValidSection(r.section) && r.termIndex == n && fetched[n].Some? && r.term == terms[n]
      {
        var ps := ParseSheet(fetched[n].value, terms[n]);
        var i :| 0 <= i < |ps| && Stamp(ps, n)[i] == r;
        assert ps[i] in ps;
      }
    }
  }

  /** What term i contributes is part of the collection. */
  lemma {:induction false} TermRecordsCollected(terms: seq<string>, fetched: seq<Option<Sheet>>, m: map<string, int>,
                                                i: nat, x: PriceRecord)
    requires |fetched| == |terms| && i < |terms|
    requires x in TermRecords(terms[i], fetched[i], m)
    ensures x in Collected(terms, fetched, m)
    decreases |terms|
  {
    var n := |terms| - 1;
    assert Collected(terms, fetched, m) == Collected(terms[..n], fetched[..n], m) + TermRecords(terms[n], fetched[n], m);
    if i < n {
      assert terms[..n][i] == terms[i] && fetched[..n][i] == fetched[i];
      TermRecordsCollected(terms[..n], fetched[..n], m, i, x);
    } else {
      assert i == n;
    }
  }

  /** Every record parsed from a successfully fetched term is collected, stamped with
      the index the map gives the term. */
  lemma CollectedTerm(terms: seq<string>, fetched: seq<Option<Sheet>>, m: map<string, int>,
                      i: nat, r: PriceRecord)
    requires |fetched| == |terms| && i < |terms|
    requires fetched[i].Some? && r in ParseSheet(fetched[i].value, terms[i])
    ensures r.(termIndex := IndexOr0(m, terms[i])) in Collected(terms, fetched, m)
  {
    StampedIn(ParseSheet(fetched[i].value, terms[i]), IndexOr0(m, terms[i]), r);
    TermRecordsCollected(terms, fetched, m, i, r.(termIndex := IndexOr0(m, terms[i])));
  }

  lemma StampedIn(ps: seq<PriceRecord>, idx: int, r: PriceRecord)
    requires r in ps
    ensures r.(termIndex := idx) in Stamp(ps, idx)
  {
    var j :| 0 <= j < |ps| && ps[j] == r;
    assert Stamp(ps, idx)[j] == r.(termIndex := idx);
  }

  /** The registry has 26 distinct terms. */
  lemma TermsDistinct()
    ensures |Terms| == 26 && NoDuplicates(Terms)
  {
    forall i, j | 0 <= i < j < |Terms| ensures Terms[i] != Terms[j] {
      assert Terms[i][|Terms[i]| - 4..] != Terms[j][|Terms[j]| - 4..] || |Terms[i]| != |Terms[j]|;
    }
  }

  /** Every term of the registry is indexed by its position. */
  lemma RegistryIndices()
    ensures forall i :: 0 <= i < |Terms| ==> IndexOr0(TermIndexMap(Terms), Terms[i]) == i
  {
    TermsDistinct();
    forall i | 0 <= i < |Terms| ensures IndexOr0(TermIndexMap(Terms), Terms[i]) == i {
      DistinctTermIndex(Terms, i);
    }
  }

  // ----- grouping -----

  function RecordSection(r: PriceRecord): string { r.section }

  /** The section of every collected record, in collection order. */
  function Sections(all: seq<PriceRecord>): seq<string> {
    MapSeq(all, RecordSection)
  }

  function SectionIs(s: string): PriceRecord -> bool {
    (r: PriceRecord) => r.section == s
  }

  /** The records of one section, in collection order. */
  function Group(all: seq<PriceRecord>, s: string): seq<PriceRecord> {
    Filter(all, SectionIs(s))
  }

  lemma GroupNonEmpty(all: seq<PriceRecord>, s: string)
    requires s in Sections(all)
    ensures |Group(all, s)| > 0
  {
    var i :| 0 <= i < |all| && Sections(all)[i] == s;
    assert all[i] in Group(all, s);
  }

  /** One more record extends the section list and its de-duplication ... */
  lemma KeysStep(all: seq<PriceRecord>, i: nat)
    requires i < |all|
    ensures Sections(all[..i + 1]) == Sections(all[..i]) + [all[i].section]
    ensures Distinct(Sections(all[..i + 1]))
         == if all[i].section in Sections(all[..i]) then Distinct(Sections(all[..i]))
            else Distinct(Sections(all[..i])) + [all[i].section]
  {
    assert Sections(all[..i + 1])[..i] == Sections(all[..i]);
  }

  /** ... and the group of its section. */
  lemma GroupStep(all: seq<PriceRecord>, i: nat, s: string)
    requires i < |all|
    ensures Group(all[..i + 1], s) == Group(all[..i], s) + (if all[i].section == s then [all[i]] else [])
  {
    assert all[..i + 1][..i] == all[..i];
  }

  /** The state of the grouping loop after the first i records: the keys in order of
      first appearance, each mapped to its records so far. */
  ghost predicate GroupedUpTo(all: seq<PriceRecord>, i: nat, keys: seq<string>, groups: map<string, seq<PriceRecord>>)
    requires i <= |all|
  {
    && keys == Distinct(Sections(all[..i]))
    && (forall s :: s in groups <==> s in keys)
    && forall s :: s in groups ==> groups[s] == Group(all[..i], s) && |groups[s]| > 0
  }

  lemma {:induction false} GroupEmpty(all: seq<PriceRecord>, s: string)
    requires s !in Sections(all)
    ensures Group(all, s) == []
    decreases |all|
  {
    if all != [] {
      var n := |all| - 1;
      assert Sections(all[..n]) == Sections(all)[..n];
      assert Sections(all)[n] == all[n].section;
      GroupEmpty(all[..n], s);
      GroupStep(all, n, s);
      assert all[..n + 1] == all;
    }
  }

  /** Filing record i keeps the loop state. */
  lemma GroupedStep(all: seq<PriceRecord>, i: nat, keys: seq<string>, groups: map<string, seq<PriceRecord>>,
                    keys': seq<string>, groups': map<string, seq<PriceRecord>>)
    requires i < |all| && GroupedUpTo(all, i, keys, groups)
    requires keys' == if all[i].section in groups then keys else keys + [all[i].section]
    requires groups' == groups[all[i].section := (if all[i].section in groups then groups[all[i].section] else []) + [all[i]]]
    ensures keys' == Distinct(Sections(all[..i + 1]))
    ensures forall s :: s in groups' <==> s in keys'
    ensures forall s :: s in groups' ==> groups'[s] == Group(all[..i + 1], s) && |groups'[s]| > 0
  {
    var p := all[i];
    KeysStep(all, i);
    assert p.section in groups <==> p.section in Sections(all[..i]);
    assert keys' == Distinct(Sections(all[..i + 1]));
    assert forall s :: s in groups' <==> s in keys';
    if p.section !in groups {
      GroupEmpty(all[..i], p.section);
    }
    forall s | s in groups' ensures groups'[s] == Group(all[..i + 1], s) && |groups'[s]| > 0 {
      GroupStep(all, i, s);
    }
  }

  /** The grouping loop over `allPrices`: `keys` is the Map's key order, first appearance
      first. */
  method GroupBySection(all: seq<PriceRecord>) returns (keys: seq<string>, groups: map<string, seq<PriceRecord>>)
    ensures keys == Distinct(Sections(all))
    ensures forall s :: s in groups <==> s in keys
    ensures forall s :: s in groups ==> groups[s] == Group(all, s) && |groups[s]| > 0
  {
    keys, groups := [], map[];
    for i := 0 to |all|
      invariant GroupedUpTo(all, i, keys, groups)
    {
      var p := all[i];
      var existing: seq<PriceRecord> := if p.section in groups then groups[p.section] else [];
      var keys' := if p.section in groups then keys else keys + [p.section];
      var groups' := groups[p.section := existing + [p]];
      GroupedStep(all, i, keys, groups, keys', groups');
      keys, groups := keys', groups';
    }
    assert all[..|all|] == all;
  }

  // ----- courses -----

  function CourseOfSection(all: seq<PriceRecord>, s: string): CourseData
    requires s in Sections(all)
  {
    GroupNonEmpty(all, s);
    CourseOf(s, Group(all, s))
  }

  /** The courses in the Map's key order, before the final sort. */
  function CoursesOf(all: seq<PriceRecord>): (cs: seq<CourseData>)
    ensures |cs| == |Distinct(Sections(all))|
    ensures forall k :: 0 <= k < |cs| ==> cs[k] == CourseOfSection(all, Distinct(Sections(all))[k])
  {
    var keys := Distinct(Sections(all));
    seq(|keys|, k requires 0 <= k < |keys| => CourseOfSection(all, keys[k]))
  }

  /** One step of `courseMap.forEach(...)`: sorts the group in place by termIndex and
      builds its course. */
  method BuildSectionCourse(s: string, g: seq<PriceRecord>) returns (c: CourseData)
    requires |g| > 0
    ensures c == CourseOf(s, g)
  {
    var a := new PriceRecord[|g|](j requires 0 <= j < |g| => g[j]);
    assert a[..] == g;
    SortInPlace(a, TermIndexKey);
    c := BuildCourse(s, a[..]);
  }

  /** Every Map key is the section of some record, so its group is not empty. */
  lemma KeyHasRecords(all: seq<PriceRecord>, k: nat)
    requires k < |Distinct(Sections(all))|
    ensures Distinct(Sections(all))[k] in Sections(all)
    ensures |Group(all, Distinct(Sections(all))[k])| > 0
  {
    var keys := Distinct(Sections(all));
    assert keys[k] in keys;
    GroupNonEmpty(all, keys[k]);
  }

  /** The first k + 1 courses are the first k followed by the course of key k. */
  lemma CoursesPrefix(all: seq<PriceRecord>, k: nat, s: string)
    requires k < |Distinct(Sections(all))| && s == Distinct(Sections(all))[k]
    ensures s in Sections(all) && |Group(all, s)| > 0
    ensures CoursesOf(all)[..k + 1] == CoursesOf(all)[..k] + [CourseOf(s, Group(all, s))]
  {
    KeyHasRecords(all, k);
    var cs := CoursesOf(all);
    assert cs[k] == CourseOfSection(all, s);
    PrefixSnoc(cs, k);
  }

  /** `courseMap.forEach(...)`, in the Map's key order. */
  method BuildCourses(all: seq<PriceRecord>, keys: seq<string>, groups: map<string, seq<PriceRecord>>)
    returns (courses: seq<CourseData>)
    requires keys == Distinct(Sections(all))
    requires forall s :: s in keys ==> s in groups && groups[s] == Group(all, s)
    ensures courses == CoursesOf(all)
  {
    courses := [];
    ghost var all' := CoursesOf(all);
    for k := 0 to |keys|
      invariant courses == all'[..k]
    {
      var s := keys[k];
      CoursesPrefix(all, k, s);
      assert s in keys;
      var c := BuildSectionCourse(s, groups[s]);
      courses := courses + [c];
    }
    assert all'[..|keys|] == all';
  }

  /** `courses.sort((a, b) => b.latestPrice - a.latestPrice)` */
  method SortCourses(courses: seq<CourseData>) returns (sorted: seq<CourseData>)
    ensures sorted == FinalOrder(courses)
  {
    var a := new CourseData[|courses|](j requires 0 <= j < |courses| => courses[j]);
    assert a[..] == courses;
    SortInPlace(a, LatestDescending);
    sorted := a[..];
  }

  // ----- the whole run -----

  /** What the script writes (courses.json, departments.json, stats.json without its
      timestamp) and prints (the three selections). */
  datatype Output = Output(
    courses: seq<CourseData>,
    departments: seq<string>,
    stats: Stats,
    topPriced: seq<CourseData>,
    increases: seq<CourseData>,
    gems: seq<CourseData>)

  function OutputOf(all: seq<PriceRecord>): Output {
    var courses := FinalOrder(CoursesOf(all));
    Output(courses, Departments(courses), StatsOf(courses, Terms),
           TopPriced(courses), Increases(courses), Gems(courses))
  }

  /** The run on the decoded sheets of the registry's terms (None where a download failed). */
  function RunOf(fetched: seq<Option<Sheet>>): Output
    requires |fetched| == |Terms|
  {
    OutputOf(Collected(Terms, fetched, TermIndexMap(Terms)))
  }

  method Run(fetched: seq<Option<Sheet>>) returns (out: Output)
    requires |fetched| == |Terms|
    ensures out == RunOf(fetched)
  {
    var m := BuildTermIndexMap(Terms);
    var all := Collect(Terms, fetched, m);
    var keys, groups := GroupBySection(all);
    var built := BuildCourses(all, keys, groups);
    var courses := SortCourses(built);
    var departments := Departments(courses);
    var stats := StatsOf(courses, Terms);
    out := Output(courses, departments, stats, TopPriced(courses), Increases(courses), Gems(courses));
  }

  /** There is one course per collected section, built from that section's records. */
  lemma OneCoursePerSection(all: seq<PriceRecord>)
    ensures forall s :: s in Sections(all) <==> exists c :: c in OutputOf(all).courses && c.section == s
    ensures forall c :: c in OutputOf(all).courses ==> c.section in Sections(all) && c == CourseOfSection(all, c.section)
    ensures forall i, j :: 0 <= i < j < |OutputOf(all).courses| ==>
              OutputOf(all).courses[i].section != OutputOf(all).courses[j].section
  {
    var built := CoursesOf(all);
    FinalOrderSpec(built);
    SameElements(built, FinalOrder(built));
    BuiltCourses(all);
    CourseSectionsDistinct(all);
    SectionsPermute(built, FinalOrder(built));
  }

  lemma SameElements(a: seq<CourseData>, b: seq<CourseData>)
    requires multiset(a) == multiset(b)
    ensures forall c :: c in a <==> c in b
  {
    forall c ensures c in a <==> c in b {
      assert c in a <==> c in multiset(a);
      assert c in b <==> c in multiset(b);
    }
  }

  /** Before the final sort: each course is the one of its section, and every section
      has one. */
  lemma BuiltCourses(all: seq<PriceRecord>)
    ensures forall c :: c in CoursesOf(all) ==> c.section in Sections(all) && c == CourseOfSection(all, c.section)
    ensures forall s :: s in Sections(all) ==> exists c :: c in CoursesOf(all) && c.section == s
  {
    var keys := Distinct(Sections(all));
    var built := CoursesOf(all);
    forall c | c in built ensures c.section in Sections(all) && c == CourseOfSection(all, c.section) {
      var k :| 0 <= k < |built| && built[k] == c;
    }
    forall s | s in Sections(all) ensures exists c :: c in built && c.section == s {
      var k :| 0 <= k < |keys| && keys[k] == s;
      assert built[k] in built;
    }
  }

  /** Courses built from distinct keys have distinct sections. */
  lemma CourseSectionsDistinct(all: seq<PriceRecord>)
    ensures NoDuplicates(CourseSections(CoursesOf(all)))
  {
  }

  function CourseSection(c: CourseData): string { c.section }

  /** The section of every course, in list order. */
  function CourseSections(cs: seq<CourseData>): seq<string> {
    MapSeq(cs, CourseSection)
  }

  /** A rearrangement of courses with distinct sections has distinct sections. */
  lemma SectionsPermute(a: seq<CourseData>, b: seq<CourseData>)
    requires NoDuplicates(CourseSections(a)) && multiset(b) == multiset(a)
    ensures forall i, j :: 0 <= i < j < |b| ==> b[i].section != b[j].section
  {
    forall i, j | 0 <= i < j < |b| ensures b[i].section != b[j].section {
      if b[i].section == b[j].section {
        assert b[i] in multiset(a) && b[j] in multiset(a);
        var k :| 0 <= k < |a| && a[k] == b[i];
        var l :| 0 <= l < |a| && a[l] == b[j];
        if k == l {
          TwiceAtLeast(b, i, j);
          OnceAtMost(CourseSections(a), a[k].section);
          SectionCount(a, b[i]);
        }
        assert false;
      }
    }
  }

  /** A course occurs in `a` no more often than its section does in the section list. */
  lemma {:induction false} SectionCount(a: seq<CourseData>, c: CourseData)
    ensures multiset(a)[c] <= multiset(CourseSections(a))[c.section]
    decreases |a|
  {
    if a != [] {
      var n := |a| - 1;
      SectionCount(a[..n], c);
      assert a == a[..n] + [a[n]];
      assert CourseSections(a) == CourseSections(a[..n]) + [a[n].section];
    }
  }

  /** When every download fails nothing is collected: no courses, no departments, and no
      average price. */
  lemma NothingFetched(fetched: seq<Option<Sheet>>)
    requires |fetched| == |Terms|
    requires forall i :: 0 <= i < |fetched| ==> fetched[i].None?
    ensures RunOf(fetched).courses == [] && RunOf(fetched).departments == []
    ensures RunOf(fetched).stats.totalCourses == 0 && RunOf(fetched).stats.avgPrice.None?
  {
    NoneCollected(Terms, fetched, TermIndexMap(Terms));
  }

  lemma {:induction false} NoneCollected(terms: seq<string>, fetched: seq<Option<Sheet>>, m: map<string, int>)
    requires |fetched| == |terms|
    requires forall i :: 0 <= i < |fetched| ==> fetched[i].None?
    ensures Collected(terms, fetched, m) == []
    decreases |terms|
  {
    if terms != [] {
      NoneCollected(terms[..|terms| - 1], fetched[..|terms| - 1], m);
    }
  }
}
