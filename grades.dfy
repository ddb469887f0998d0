/** The per-student half of the grade engine (utils.ts): the record types,
    roundToTwo, calculateMention, the averages recalculateGrades derives for one
    student, the semester-1 name match behind the annual average, and the blank
    roster slots of generateInitialStudents. */
module Grades {
  import opened Text

  datatype Option<T> = None | Some(value: T)

  /** A score cell: the empty string '' (not entered) or a number. */
  datatype Score = Blank | Mark(value: real)

  /** 'M' | 'F' | '' */
  datatype Gender = Male | Female | Unset

  /** One roster row. moyDev, moyenne, moyCoef, moyG, rang and mention are derived. */
  datatype Student = Student(
    id: string,
    prenoms: string,
    noms: string,
    sexe: Gender,
    d1: Score,
    d2: Score,
    d3: Score,
    moyDev: real,
    comp: Score,
    moyenne: real,
    moyCoef: real,
    moyG: Option<real>,
    rang: int,
    mention: string)

  datatype Metadata = Metadata(
    discipline: string,
    classe: string,
    semester: int,
    professeur: string,
    coefficient: real)

  /** `${classe}_${discipline}_S${semester}`: the database key of a sheet and the
      raw name of its exported worksheet. */
  function SheetKey(classe: string, discipline: string, semester: int): string {
    classe + "_" + discipline + "_S" + IntToString(semester)
  }

  lemma SheetKeyParts(c: string, d: string, m: int)
    ensures SheetKey(c, d, m) == c + ['_'] + (d + ['_'] + ("S" + IntToString(m)))
  {
  }

  /** Class and subject names without '_' give one key per (class, subject,
      semester): the key can be split back into its parts. */
  lemma SheetKeyInjective(c1: string, d1: string, m1: int, c2: string, d2: string, m2: int)
    requires '_' !in c1 && '_' !in d1 && '_' !in c2 && '_' !in d2
    requires SheetKey(c1, d1, m1) == SheetKey(c2, d2, m2)
    ensures c1 == c2 && d1 == d2 && m1 == m2
  {
    var t1, t2 := "S" + IntToString(m1), "S" + IntToString(m2);
    SheetKeyParts(c1, d1, m1);
    SheetKeyParts(c2, d2, m2);
    SplitAtSeparator(c1, d1 + ['_'] + t1, c2, d2 + ['_'] + t2, '_');
    SplitAtSeparator(d1, t1, d2, t2, '_');
    assert IntToString(m1) == t1[1..] == t2[1..] == IntToString(m2);
    IntToStringInjective(m1, m2);
  }

  const CLASS_OPTIONS: seq<string> :=
    ["3T1", "3T2", "3MAB", "3ART", "3MSD", "4T1", "4T2", "4MAB", "4ART", "4MSD"]

  const SUBJECT_OPTIONS: seq<string> := ["SVT", "PC", "EFS", "TECHNO"]

  // ---------------------------------------------------------------------------
  // Rounding and mention bands

  /** roundToTwo: Math.round(x * 100) / 100, where Math.round rounds halves up. */
  function Round2(x: real): real {
    (x * 100.0 + 0.5).Floor as real / 100.0
  }

  /** The result is a whole number of hundredths within half a hundredth of x
      (an exact half goes up). */
  lemma Round2Spec(x: real)
    ensures x - 0.005 < Round2(x) <= x + 0.005
    ensures (Round2(x) * 100.0).Floor as real == Round2(x) * 100.0
  {
    var k := (x * 100.0 + 0.5).Floor;
    assert Round2(x) * 100.0 == k as real;
  }

  /** Rounding never reverses the order of two numbers. */
  lemma Round2Monotone(x: real, y: real)
    requires x <= y
    ensures Round2(x) <= Round2(y)
  {
    assert (x * 100.0 + 0.5).Floor <= (y * 100.0 + 0.5).Floor;
  }

  /** A number of hundredths is left as it is. */
  lemma Round2Cents(k: int)
    ensures Round2(k as real / 100.0) == k as real / 100.0
  {
    var y := k as real / 100.0;
    assert y * 100.0 + 0.5 == k as real + 0.5;
    assert (k as real + 0.5).Floor == k;
  }

  /** Rounding keeps a mark inside [0, 20]. */
  lemma Round2InRange(x: real)
    requires 0.0 <= x <= 20.0
    ensures 0.0 <= Round2(x) <= 20.0
  {
    Round2Monotone(0.0, x);
    Round2Monotone(x, 20.0);
    Round2Cents(0);
    Round2Cents(2000);
  }

  /** calculateMention: bands with inclusive lower bounds at 10, 12, 14, 16 and 18. */
  function Mention(average: real): string {
    if average < 10.0 then "Insuffisant"
    else if average < 12.0 then "Passable"
    else if average < 14.0 then "Assez Bien"
    else if average < 16.0 then "Bien"
    else if average < 18.0 then "Très Bien"
    else "Excellent"
  }

  /** Each label is given exactly on its band, lower bound included. */
  lemma MentionBands(average: real)
    ensures Mention(average) == "Insuffisant" <==> average < 10.0
    ensures Mention(average) == "Passable" <==> 10.0 <= average < 12.0
    ensures Mention(average) == "Assez Bien" <==> 12.0 <= average < 14.0
    ensures Mention(average) == "Bien" <==> 14.0 <= average < 16.0
    ensures Mention(average) == "Très Bien" <==> 16.0 <= average < 18.0
    ensures Mention(average) == "Excellent" <==> 18.0 <= average
    ensures Mention(average) != ""
  {
  }

  /** The labels from the lowest band to the highest. */
  const MENTIONS: seq<string> :=
    ["Insuffisant", "Passable", "Assez Bien", "Bien", "Très Bien", "Excellent"]

  /** The position of a label in MENTIONS. */
  function MentionLevel(m: string): nat {
    if m == MENTIONS[0] then 0
    else if m == MENTIONS[1] then 1
    else if m == MENTIONS[2] then 2
    else if m == MENTIONS[3] then 3
    else if m == MENTIONS[4] then 4
    else 5
  }

  /** A higher average never gets a lower mention. */
  lemma MentionMonotone(a: real, b: real)
    requires a <= b
    ensures MentionLevel(Mention(a)) <= MentionLevel(Mention(b))
  {
  }

  // ---------------------------------------------------------------------------
  // The averages of one student

  /** The number in a score cell, if any. */
  function MarkOf(c: Score): seq<real> {
    if c.Mark? then [c.value] else []
  }

  /** The D1..D3 scores that are set, in order ([d1, d2, d3].filter(n => n !== '')). */
  function DevNotes(st: Student): (notes: seq<real>)
    ensures |notes| <= 3
    ensures notes == [] <==> st.d1.Blank? && st.d2.Blank? && st.d3.Blank?
  {
    MarkOf(st.d1) + MarkOf(st.d2) + MarkOf(st.d3)
  }

  /** The running sum reduce((a, b) => a + b, 0). */
  function Sum(xs: seq<real>): real {
    if xs == [] then 0.0 else Sum(xs[..|xs| - 1]) + xs[|xs| - 1]
  }

  /** The continuous average before rounding: the mean of the set D scores, 0 if none.
      There are at most three of them, so the count is spelled out as 1, 2 or 3. */
  function MoyDev(st: Student): real {
    var notes := DevNotes(st);
    if |notes| == 0 then 0.0
    else if |notes| == 1 then Sum(notes)
    else if |notes| == 2 then Sum(notes) / 2.0
    else Sum(notes) / 3.0
  }

  /** The exam mark, with '' read as 0. */
  function CompValue(st: Student): real {
    if st.comp.Blank? then 0.0 else st.comp.value
  }

  /** hasAnyGrade: some D score or the exam score is set. */
  predicate HasAnyGrade(st: Student) {
    DevNotes(st) != [] || st.comp.Mark?
  }

  /** finalMoy, unrounded: the continuous mean and the exam mark weigh the same. */
  function FinalMoy(st: Student): real {
    if HasAnyGrade(st) then (MoyDev(st) + CompValue(st)) / 2.0 else 0.0
  }

  // ---------------------------------------------------------------------------
  // Matching a semester-2 student with semester 1

  /** s.trim().toLowerCase() */
  function NameKey(s: string): string {
    ToLower(Trim(s))
  }

  /** Both names equal after trimming and lower-casing. */
  predicate SameName(a: Student, b: Student) {
    NameKey(a.noms) == NameKey(b.noms) && NameKey(a.prenoms) == NameKey(b.prenoms)
  }

  /** s1Students.find(...) from index i on: the first semester-1 student with the same names. */
  function FindFrom(s1: seq<Student>, st: Student, i: nat): (r: Option<nat>)
    requires i <= |s1|
    ensures r.Some? ==> i <= r.value < |s1| && SameName(s1[r.value], st)
    ensures r.Some? ==> forall j :: i <= j < r.value ==> !SameName(s1[j], st)
    ensures r.None? <==> forall j :: i <= j < |s1| ==> !SameName(s1[j], st)
    decreases |s1| - i
  {
    if i == |s1| then None
    else if SameName(s1[i], st) then Some(i)
    else FindFrom(s1, st, i + 1)
  }

  /** s1Students.find(...): the index of the first semester-1 student with the same names. */
  function FindMatch(s1: seq<Student>, st: Student): Option<nat> {
    FindFrom(s1, st, 0)
  }

  /** moyG: absent without semester-1 data; otherwise the rounded mean of the matched
      semester-1 moyenne and this finalMoy, the semester-1 side read as 0 when no
      student matches. */
  function AnnualAverage(st: Student, s1: seq<Student>): (g: Option<real>)
    ensures g.None? <==> s1 == []
  {
    if |s1| == 0 then None
    else match FindMatch(s1, st) {
      case Some(i) => Some(Round2((s1[i].moyenne + FinalMoy(st)) / 2.0))
      case None => Some(Round2(FinalMoy(st) / 2.0))
    }
  }

  /** The annual average in terms of the name match itself: the first same-named
      semester-1 student supplies the semester-1 side. */
  lemma AnnualAverageMatched(st: Student, s1: seq<Student>, i: nat)
    requires i < |s1| && SameName(s1[i], st)
    requires forall j :: 0 <= j < i ==> !SameName(s1[j], st)
    ensures AnnualAverage(st, s1) == Some(Round2((s1[i].moyenne + FinalMoy(st)) / 2.0))
  {
    FirstMatchFound(s1, st, i);
  }

  /** With semester-1 data but no same-named student there, the semester-1 side is 0. */
  lemma AnnualAverageUnmatched(st: Student, s1: seq<Student>)
    requires s1 != [] && forall j :: 0 <= j < |s1| ==> !SameName(s1[j], st)
    ensures AnnualAverage(st, s1) == Some(Round2(FinalMoy(st) / 2.0))
  {
    assert FindMatch(s1, st).None?;
  }

  /** The first same-named semester-1 student is the one find returns. */
  lemma FirstMatchFound(s1: seq<Student>, st: Student, i: nat)
    requires i < |s1| && SameName(s1[i], st)
    requires forall j :: 0 <= j < i ==> !SameName(s1[j], st)
    ensures FindMatch(s1, st) == Some(i)
  {
    var m := FindMatch(s1, st);
    assert m.Some?;
    assert m.value == i;
  }

  /** The raw fields, the id and the rank are those of the input. */
  predicate KeepsRaw(st: Student, r: Student) {
    && r.id == st.id && r.prenoms == st.prenoms && r.noms == st.noms && r.sexe == st.sexe
    && r.d1 == st.d1 && r.d2 == st.d2 && r.d3 == st.d3 && r.comp == st.comp
  }

  /** roundToTwo(finalMoy * coefficient): the weighted average. */
  function Weighted(finalMoy: real, coefficient: real): real {
    Round2(finalMoy * coefficient)
  }

  /** The per-student step of recalculateGrades (the students.map callback). */
  function ComputeStudent(st: Student, coefficient: real, s1: seq<Student>): (r: Student)
    ensures KeepsRaw(st, r) && r.rang == st.rang
  {
    var finalMoy := FinalMoy(st);
    st.(moyDev := Round2(MoyDev(st)),
        moyenne := Round2(finalMoy),
        moyCoef := Weighted(finalMoy, coefficient),
        moyG := AnnualAverage(st, s1),
        mention := if HasAnyGrade(st) then Mention(finalMoy) else "")
  }

  /** The mention is '' exactly when no score is set, and moyG is absent exactly
      when there is no semester-1 data. */
  lemma ComputeStudentMention(st: Student, coefficient: real, s1: seq<Student>)
    ensures ComputeStudent(st, coefficient, s1).mention == "" <==> !HasAnyGrade(st)
    ensures ComputeStudent(st, coefficient, s1).moyG.None? <==> s1 == []
  {
    MentionBands(FinalMoy(st));
  }

  /** Every set score lies in [0, 20], as the grade table's input handler ensures. */
  predicate ScoreInRange(c: Score) {
    c.Mark? ==> 0.0 <= c.value <= 20.0
  }

  predicate ScoresInRange(st: Student) {
    ScoreInRange(st.d1) && ScoreInRange(st.d2) && ScoreInRange(st.d3) && ScoreInRange(st.comp)
  }

  /** A sum of marks in [0, 20] lies in [0, 20 * count]. */
  lemma {:induction false} SumInRange(xs: seq<real>)
    requires forall i :: 0 <= i < |xs| ==> 0.0 <= xs[i] <= 20.0
    ensures 0.0 <= Sum(xs) <= 20.0 * |xs| as real
  {
    if xs != [] {
      SumInRange(xs[..|xs| - 1]);
    }
  }

  /** The continuous average and finalMoy of in-range scores lie in [0, 20]. */
  lemma FinalMoyInRange(st: Student)
    requires ScoresInRange(st)
    ensures 0.0 <= MoyDev(st) <= 20.0
    ensures 0.0 <= FinalMoy(st) <= 20.0
  {
    var notes := DevNotes(st);
    assert forall i :: 0 <= i < |notes| ==> 0.0 <= notes[i] <= 20.0;
    SumInRange(notes);
  }

  /** A mark in [0, 20] weighted by a non-negative coefficient lies in
      [0, round2(20 * coefficient)]. */
  lemma WeightedInRange(f: real, coefficient: real)
    requires 0.0 <= f <= 20.0 && coefficient >= 0.0
    ensures 0.0 <= Weighted(f, coefficient) <= Weighted(20.0, coefficient)
  {
    assert 0.0 <= f * coefficient by {
      assert f * coefficient >= 0.0 * coefficient;
    }
    assert f * coefficient <= 20.0 * coefficient;
    Round2Cents(0);
    Round2Monotone(0.0, f * coefficient);
    Round2Monotone(f * coefficient, 20.0 * coefficient);
  }

  /** moyCoef is within half a hundredth of the unrounded finalMoy (f) times the
      coefficient. */
  lemma MoyCoefNearProduct(st: Student, coefficient: real, s1: seq<Student>, f: real)
    requires f == FinalMoy(st)
    ensures f * coefficient - 0.005 < ComputeStudent(st, coefficient, s1).moyCoef <= f * coefficient + 0.005
  {
    assert ComputeStudent(st, coefficient, s1).moyCoef == Weighted(f, coefficient);
    WeightedNearProduct(f, coefficient);
  }

  /** The weighted average is within half a hundredth of the product. */
  lemma WeightedNearProduct(f: real, coefficient: real)
    ensures f * coefficient - 0.005 < Weighted(f, coefficient) <= f * coefficient + 0.005
  {
    Round2Spec(f * coefficient);
  }

  /** moyCoef weights the unrounded finalMoy, not the rounded moyenne: with D1 = 0.25
      and an exam of 20 at coefficient 2, finalMoy is 10.125 and moyCoef 20.25,
      while weighting the rounded moyenne 10.13 would give 20.26. */
  lemma MoyCoefNotFromMoyenne(st: Student, s1: seq<Student>)
    requires st.d1 == Mark(0.25) && st.d2.Blank? && st.d3.Blank? && st.comp == Mark(20.0)
    ensures FinalMoy(st) == 10.125
    ensures ComputeStudent(st, 2.0, s1).moyenne == 10.13
    ensures ComputeStudent(st, 2.0, s1).moyCoef == 20.25
    ensures Weighted(ComputeStudent(st, 2.0, s1).moyenne, 2.0) == 20.26
  {
    assert DevNotes(st) == [0.25];
    assert Sum([0.25]) == 0.25 by {
      assert [0.25][..0] == [];
    }
    assert Round2(10.125) == 10.13 by {
      assert 10.125 * 100.0 + 0.5 == 1013.0;
    }
    assert Round2(20.25) == 20.25 by {
      assert 20.25 * 100.0 + 0.5 == 2025.5;
    }
    assert Round2(20.26) == 20.26 by {
      assert 20.26 * 100.0 + 0.5 == 2026.5;
    }
  }

  /** moyCoef lies in [0, round2(20 * coefficient)] when finalMoy (f) lies in [0, 20]. */
  lemma MoyCoefInRange(st: Student, coefficient: real, s1: seq<Student>, f: real)
    requires f == FinalMoy(st) && 0.0 <= f <= 20.0 && coefficient >= 0.0
    ensures 0.0 <= ComputeStudent(st, coefficient, s1).moyCoef <= Weighted(20.0, coefficient)
  {
    WeightedInRange(f, coefficient);
  }

  /** moyG lies in [0, 20] when finalMoy and every semester-1 moyenne do. */
  lemma AnnualAverageInRange(st: Student, s1: seq<Student>)
    requires 0.0 <= FinalMoy(st) <= 20.0
    requires forall j :: 0 <= j < |s1| ==> 0.0 <= s1[j].moyenne <= 20.0
    ensures AnnualAverage(st, s1).Some? ==> 0.0 <= AnnualAverage(st, s1).value <= 20.0
  {
    var f := FinalMoy(st);
    if s1 != [] {
      var x := match FindMatch(s1, st)
        case Some(i) => (s1[i].moyenne + f) / 2.0
        case None => f / 2.0;
      assert 0.0 <= x <= 20.0;
      Round2InRange(x);
    }
  }

  /** Bounds: with in-range scores and a non-negative coefficient, moyDev and
      moyenne lie in [0, 20] and moyCoef in [0, round2(20 * coefficient)]. */
  lemma ComputeStudentInRange(st: Student, coefficient: real, s1: seq<Student>)
    requires ScoresInRange(st) && coefficient >= 0.0
    ensures var r := ComputeStudent(st, coefficient, s1);
      && 0.0 <= r.moyDev <= 20.0
      && 0.0 <= r.moyenne <= 20.0
      && 0.0 <= r.moyCoef <= Weighted(20.0, coefficient)
  {
    FinalMoyInRange(st);
    Round2InRange(MoyDev(st));
    Round2InRange(FinalMoy(st));
    MoyCoefInRange(st, coefficient, s1, FinalMoy(st));
  }

  /** A student with no score at all: every average is 0 and the mention is ''. */
  lemma NoGradeDefaults(st: Student, coefficient: real, s1: seq<Student>)
    requires st.d1.Blank? && st.d2.Blank? && st.d3.Blank? && st.comp.Blank?
    ensures var r := ComputeStudent(st, coefficient, s1);
      r.moyDev == 0.0 && r.moyenne == 0.0 && r.moyCoef == 0.0 && r.mention == ""
  {
    assert DevNotes(st) == [];
    Round2Cents(0);
  }

  /** Exam only: the continuous mean counts as 0, so finalMoy is half the exam mark. */
  lemma ExamOnly(st: Student, coefficient: real, s1: seq<Student>)
    requires st.d1.Blank? && st.d2.Blank? && st.d3.Blank? && st.comp.Mark?
    ensures FinalMoy(st) == st.comp.value / 2.0
    ensures ComputeStudent(st, coefficient, s1).moyDev == 0.0
    ensures ComputeStudent(st, coefficient, s1).moyenne == Round2(st.comp.value / 2.0)
  {
    assert DevNotes(st) == [];
    Round2Cents(0);
  }

  /** The continuous mean of all three D scores, with the exam mark. */
  lemma ThreeScores(st: Student)
    requires st.d1.Mark? && st.d2.Mark? && st.d3.Mark? && st.comp.Mark?
    ensures FinalMoy(st) ==
      ((st.d1.value + st.d2.value + st.d3.value) / 3.0 + st.comp.value) / 2.0
  {
    var a, b, c := st.d1.value, st.d2.value, st.d3.value;
    assert DevNotes(st) == [a, b, c];
    assert [a, b, c][..2] == [a, b];
    assert [a, b][..1] == [a];
    assert [a][..0] == [];
    assert Sum([a]) == a;
    assert Sum([a, b]) == a + b;
    assert Sum([a, b, c]) == a + b + c;
  }

  /** The worked example: an exam-only 16 gives moyenne 8 and the mention Insuffisant. */
  lemma ExamOnlySixteen(st: Student, coefficient: real, s1: seq<Student>)
    requires st.d1.Blank? && st.d2.Blank? && st.d3.Blank? && st.comp == Mark(16.0)
    ensures ComputeStudent(st, coefficient, s1).moyenne == 8.0
    ensures ComputeStudent(st, coefficient, s1).mention == "Insuffisant"
  {
    ExamOnly(st, coefficient, s1);
    Round2Cents(800);
  }

  /** The annual average with a match: semester 1 at 14 and semester 2 at 10 give 12. */
  lemma AnnualAverageExample(st: Student, s1: seq<Student>)
    requires |s1| > 0 && SameName(s1[0], st) && s1[0].moyenne == 14.0
    requires FinalMoy(st) == 10.0
    ensures AnnualAverage(st, s1) == Some(12.0)
  {
    Round2Cents(1200);
  }

  /** The annual average without a match: semester 2 at 12 gives 6. */
  lemma AnnualAverageNoMatchExample(st: Student, s1: seq<Student>)
    requires |s1| > 0 && forall j :: 0 <= j < |s1| ==> !SameName(s1[j], st)
    requires FinalMoy(st) == 12.0
    ensures AnnualAverage(st, s1) == Some(6.0)
  {
    Round2Cents(600);
  }

  /** The name key ignores case: names that differ only in the case of their
      letters have the same key. */
  lemma NameKeyIgnoresCase(a: string, b: string)
    requires CaseVariants(a, b)
    ensures NameKey(a) == NameKey(b)
  {
    TrimLowerIgnoresCase(a, b);
  }

  /** Whether a semester-1 student matches ignores the case of the names. */
  lemma SameNameIgnoresCase(x: Student, st: Student, other: Student)
    requires CaseVariants(st.noms, other.noms) && CaseVariants(st.prenoms, other.prenoms)
    ensures SameName(x, st) <==> SameName(x, other)
  {
    NameKeyIgnoresCase(st.noms, other.noms);
    NameKeyIgnoresCase(st.prenoms, other.prenoms);
  }

  /** Two students that match the same semester-1 students from i on find the same one. */
  lemma {:induction false} FindFromAgree(s1: seq<Student>, st: Student, other: Student, i: nat)
    requires i <= |s1|
    requires forall j :: i <= j < |s1| ==> (SameName(s1[j], st) <==> SameName(s1[j], other))
    ensures FindFrom(s1, st, i) == FindFrom(s1, other, i)
    decreases |s1| - i
  {
    if i < |s1| {
      if SameName(s1[i], st) {
        assert SameName(s1[i], other);
      } else {
        assert !SameName(s1[i], other);
        FindFromAgree(s1, st, other, i + 1);
      }
    }
  }

  /** The semester-1 match ignores case: two students whose names differ only in
      case match the same semester-1 student, or none. */
  lemma FindMatchIgnoresCase(s1: seq<Student>, st: Student, other: Student)
    requires CaseVariants(st.noms, other.noms) && CaseVariants(st.prenoms, other.prenoms)
    ensures FindMatch(s1, st) == FindMatch(s1, other)
  {
    forall j | 0 <= j < |s1| ensures SameName(s1[j], st) <==> SameName(s1[j], other) {
      SameNameIgnoresCase(s1[j], st, other);
    }
    FindFromAgree(s1, st, other, 0);
  }


  /** A name that trims to '' matches exactly the names that trim to ''. */
  lemma BlankNameKey(a: string, b: string)
    requires Trim(a) == []
    ensures NameKey(b) == NameKey(a) <==> Trim(b) == []
  {
  }

  /** Both names trim to '': a blank row. */
  predicate BlankNames(st: Student) {
    Trim(st.noms) == [] && Trim(st.prenoms) == []
  }

  /** A student with blank names matches the first semester-1 student whose names
      are both blank. */
  lemma BlankNamesMatchFirstBlank(s1: seq<Student>, st: Student)
    requires BlankNames(st)
    ensures forall j :: 0 <= j < |s1| ==> (SameName(s1[j], st) <==> BlankNames(s1[j]))
    ensures FindMatch(s1, st).Some? ==> BlankNames(s1[FindMatch(s1, st).value])
    ensures FindMatch(s1, st).None? <==> forall j :: 0 <= j < |s1| ==> !BlankNames(s1[j])
  {
    forall j | 0 <= j < |s1| ensures SameName(s1[j], st) <==> BlankNames(s1[j]) {
      BlankNameKey(st.noms, s1[j].noms);
      BlankNameKey(st.prenoms, s1[j].prenoms);
    }
  }

  // ---------------------------------------------------------------------------
  // Blank roster slots (generateInitialStudents)

  /** A fresh slot: every raw field '', derived fields 0 or '', rang 0, no moyG. */
  function BlankStudent(id: string): Student {
    Student(id, "", "", Unset, Blank, Blank, Blank, 0.0, Blank, 0.0, 0.0, None, 0, "")
  }

  predicate DistinctIds(s: seq<Student>) {
    forall i, j :: 0 <= i < j < |s| ==> s[i].id != s[j].id
  }

  predicate DistinctStrings(ids: seq<string>) {
    forall i, j :: 0 <= i < j < |ids| ==> ids[i] != ids[j]
  }

  /** generateInitialStudents: count blank slots; ids supplies the identifiers
      crypto.randomUUID() would return, in order. */
  method GenerateInitialStudents(count: nat, ids: seq<string>) returns (students: seq<Student>)
    requires |ids| >= count
    ensures |students| == count
    ensures forall i :: 0 <= i < count ==> students[i] == BlankStudent(ids[i])
    ensures DistinctStrings(ids[..count]) ==> DistinctIds(students)
  {
    students := [];
    for i := 0 to count
      invariant |students| == i
      invariant forall k :: 0 <= k < i ==> students[k] == BlankStudent(ids[k])
    {
      students := students + [BlankStudent(ids[i])];
    }
    if DistinctStrings(ids[..count]) {
      forall i, j | 0 <= i < j < count ensures students[i].id != students[j].id {
        assert ids[..count][i] == ids[i] && ids[..count][j] == ids[j];
      }
    }
  }

  /** A blank slot computes to moyenne 0, mention '' and no grade at all. */
  lemma BlankStudentComputes(id: string, coefficient: real, s1: seq<Student>)
    ensures !HasAnyGrade(BlankStudent(id))
    ensures var r := ComputeStudent(BlankStudent(id), coefficient, s1);
      r.moyDev == 0.0 && r.moyenne == 0.0 && r.moyCoef == 0.0 && r.mention == ""
  {
    NoGradeDefaults(BlankStudent(id), coefficient, s1);
  }
}
