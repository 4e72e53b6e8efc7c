/** The string helpers of src/lib/utils.ts: section-code slicing and term-label formatting. */
module Utils {
  import opened Wrappers
  import opened Text

  function Min(a: int, b: int): int { if a <= b then a else b }

  /** String.prototype.slice(start, end) for non-negative arguments: both bounds
      are clamped to the length, and a reversed range is empty. */
  function Slice(s: string, start: nat, end: nat): (r: string)
    ensures |r| == if Min(start, |s|) <= Min(end, |s|) then Min(end, |s|) - Min(start, |s|) else 0
    ensures forall i :: 0 <= i < |r| ==> r[i] == s[start + i]
  {
    var a := Min(start, |s|);
    var b := Min(end, |s|);
    if a <= b then s[a..b] else ""
  }

  /** getCourseCode: the course code is the first seven characters of the section
      (all of it when shorter). */
  function GetCourseCode(section: string): (code: string)
    ensures |code| == Min(7, |section|)
    ensures code <= section
  {
    Slice(section, 0, 7)
  }

  /** The department code: the first four characters of a section. */
  function Department(section: string): (dept: string)
    ensures |dept| == Min(4, |section|)
    ensures dept <= section
  {
    Slice(section, 0, 4)
  }

  datatype SectionParts = SectionParts(department: string, courseNum: string, sectionNum: string)

  function Joined(p: SectionParts): string {
    p.department + p.courseNum + p.sectionNum
  }

  /** parseSectionCode: the slices [0,4), [4,7) and [7,10) of the section, each
      clamped to its length. */
  function ParseSectionCode(section: string): (p: SectionParts)
    ensures |p.department| == Min(4, |section|)
    ensures |p.courseNum| == Min(7, |section|) - Min(4, |section|)
    ensures |p.sectionNum| == Min(10, |section|) - Min(7, |section|)
    ensures Joined(p) <= section
  {
    SectionParts(Department(section), Slice(section, 4, 7), Slice(section, 7, 10))
  }

  /** The three parts rebuild the section exactly when it has at most ten characters. */
  lemma PartsRebuildSection(section: string)
    ensures Joined(ParseSectionCode(section)) == section <==> |section| <= 10
  {
    var j := Joined(ParseSectionCode(section));
    if |section| > 10 {
      assert |j| == 10;
    }
  }

  /** Department and course number together are the course code. */
  lemma PartsMakeCourseCode(section: string)
    ensures ParseSectionCode(section).department + ParseSectionCode(section).courseNum
         == GetCourseCode(section)
  {
    var p := ParseSectionCode(section);
    assert Joined(p) == (p.department + p.courseNum) + p.sectionNum;
    assert p.department + p.courseNum <= Joined(p);
  }

  /** For an eleven-character section (the 4 + 3 + 4 layout the extractor also
      accepts) the section number keeps three of the four trailing digits: the
      last character is dropped. */
  lemma ElevenCharacterSection(section: string)
    requires |section| == 11
    ensures ParseSectionCode(section).sectionNum == section[7..10]
    ensures Joined(ParseSectionCode(section)) + [section[10]] == section
  {
    var p := ParseSectionCode(section);
    assert Joined(p) == section[..10];
    assert section[..10] + [section[10]] == section;
  }

  lemma ElevenCharacterExample()
    ensures ParseSectionCode("MGMT5010001") == SectionParts("MGMT", "501", "000")
    ensures GetCourseCode("MGMT5010001") == "MGMT501"
  {
    var s := "MGMT5010001";
    assert s[..4] == "MGMT";
    assert s[4..7] == "501";
    assert s[7..10] == "000";
    assert s[..7] == "MGMT501";
  }

  /** Two different sections of one course, "MGMT6910001" and "MGMT6910002", parse
      to the same parts: the slice [7,10) cannot tell them apart. */
  lemma SectionNumberCollision()
    ensures "MGMT6910001" != "MGMT6910002"
    ensures ParseSectionCode("MGMT6910001") == ParseSectionCode("MGMT6910002")
    ensures ParseSectionCode("MGMT6910001").sectionNum == "000"
  {
    var s, t := "MGMT6910001", "MGMT6910002";
    assert s[10] != t[10];
    assert s[..4] == t[..4] == "MGMT";
    assert s[4..7] == t[4..7] == "691";
    assert s[7..10] == t[7..10] == "000";
  }

  /** The section number as the layout intends it: everything after the course
      code, so that a seven-digit section keeps all four trailing digits. */
  function ParseSectionCodeFull(section: string): (p: SectionParts)
    ensures p.department + p.courseNum == GetCourseCode(section)
    ensures |p.sectionNum| == |section| - Min(7, |section|)
  {
    SectionParts(Department(section), Slice(section, 4, 7), Slice(section, 7, |section|))
  }

  /** The corrected parts rebuild every section, so distinct sections never share
      their parts, and on sections of at most ten characters they agree with
      ParseSectionCode. */
  lemma FullPartsRebuildSection(section: string, other: string)
    ensures Joined(ParseSectionCodeFull(section)) == section
    ensures section != other ==> ParseSectionCodeFull(section) != ParseSectionCodeFull(other)
    ensures |section| <= 10 ==> ParseSectionCodeFull(section) == ParseSectionCode(section)
  {
    var p, q := ParseSectionCodeFull(section), ParseSectionCodeFull(other);
    assert Joined(p) == section by {
      assert p.department + p.courseNum == section[..Min(7, |section|)];
      assert p.sectionNum == section[Min(7, |section|)..];
      assert section[..Min(7, |section|)] + section[Min(7, |section|)..] == section;
    }
    assert Joined(q) == other by {
      assert q.department + q.courseNum == other[..Min(7, |other|)];
      assert q.sectionNum == other[Min(7, |other|)..];
      assert other[..Min(7, |other|)] + other[Min(7, |other|)..] == other;
    }
  }

  /** `\d{4}` matches at position i. */
  predicate FourDigitsAt(s: string, i: int) {
    0 <= i && i + 4 <= |s| && IsDigit(s[i]) && IsDigit(s[i + 1]) && IsDigit(s[i + 2]) && IsDigit(s[i + 3])
  }

  /** The leftmost match of `\d{4}` at or after `from`, as the regular expression
      engine finds it. */
  function FindFourDigits(s: string, from: nat): (r: Option<nat>)
    requires from <= |s|
    ensures r.Some? ==> from <= r.value && FourDigitsAt(s, r.value)
    ensures r.Some? ==> forall j :: from <= j < r.value ==> !FourDigitsAt(s, j)
    ensures r.None? ==> forall j :: from <= j ==> !FourDigitsAt(s, j)
    decreases |s| - from
  {
    if from + 4 > |s| then None
    else if FourDigitsAt(s, from) then Some(from)
    else FindFourDigits(s, from + 1)
  }

  /** formatTerm: `term.replace(/(\d{4})/, ' $1')` puts one space before the first
      run of four digits and leaves a term without one unchanged. */
  function FormatTerm(term: string): (r: string)
    ensures (forall j :: !FourDigitsAt(term, j)) ==> r == term
    ensures forall k :: FourDigitsAt(term, k) && (forall j :: 0 <= j < k ==> !FourDigitsAt(term, j))
              ==> r == term[..k] + " " + term[k..]
  {
    match FindFourDigits(term, 0)
    case None => term
    case Some(k) => term[..k] + " " + term[k..]
  }

  /** Deleting the inserted space gives the term back, and the space stands right
      before a four-digit run of the result. */
  lemma FormatTermUndo(term: string)
    ensures FormatTerm(term) == term
         || (exists k :: 0 <= k < |FormatTerm(term)| && FormatTerm(term)[k] == ' '
               && FourDigitsAt(FormatTerm(term), k + 1) && FormatTerm(term)[..k] + FormatTerm(term)[k + 1..] == term)
  {
    match FindFourDigits(term, 0)
    case None =>
    case Some(k) =>
      var r := FormatTerm(term);
      assert r == term[..k] + " " + term[k..];
      assert r[..k] == term[..k];
      assert r[k + 1..] == term[k..];
      assert term[..k] + term[k..] == term;
      assert r[k + 1..k + 5] == term[k..k + 4];
      assert FourDigitsAt(r, k + 1);
  }

  lemma FormatTermExamples()
    ensures FormatTerm("Spring2026") == "Spring 2026"
    ensures FormatTerm("Fall") == "Fall"
  {
    var s := "Spring2026";
    assert !FourDigitsAt(s, 0) && !FourDigitsAt(s, 1) && !FourDigitsAt(s, 2);
    assert !FourDigitsAt(s, 3) && !FourDigitsAt(s, 4) && !FourDigitsAt(s, 5);
    assert FourDigitsAt(s, 6);
    assert s[..6] + " " + s[6..] == "Spring 2026";
    assert forall j :: !FourDigitsAt("Fall", j);
  }
}
