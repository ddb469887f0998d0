/** The sheet store of the application component (App.tsx): a database of grade
    sheets keyed by class, subject and semester, the key of the sheet being
    edited, and the handlers that create, navigate, edit, sort and reset sheets. */
module Store {
  import opened Text
  import opened Grades
  import opened Ranking
  import opened Stats

  /** One entry of the database: { metadata, students }. */
  datatype Sheet = Sheet(metadata: Metadata, students: seq<Student>)

  /** 'dashboard' | 'editor' */
  datatype View = Dashboard | Editor

  /** Blank slots per new sheet. */
  const SLOTS: nat := 100

  /** Sheets of the initial database: 10 classes, 4 subjects, 2 semesters. */
  const SHEET_COUNT: nat := 80

  // ---------------------------------------------------------------------------
  // Keys

  /** The class and subject options hold no '_', and no subject starts with "S2". */
  lemma OptionsAreKeyParts()
    ensures forall c :: c in CLASS_OPTIONS ==> '_' !in c
    ensures forall d :: d in SUBJECT_OPTIONS ==> '_' !in d && !(|d| >= 2 && d[0] == 'S' && d[1] == '2')
  {
  }

  /** Different option triples give different keys. */
  lemma OptionKeysInjective()
    ensures forall c1, d1, m1, c2, d2, m2 ::
      (c1 in CLASS_OPTIONS && d1 in SUBJECT_OPTIONS && c2 in CLASS_OPTIONS && d2 in SUBJECT_OPTIONS &&
       SheetKey(c1, d1, m1) == SheetKey(c2, d2, m2)) ==> c1 == c2 && d1 == d2 && m1 == m2
  {
    OptionsAreKeyParts();
    forall c1, d1, m1, c2, d2, m2 |
      c1 in CLASS_OPTIONS && d1 in SUBJECT_OPTIONS && c2 in CLASS_OPTIONS && d2 in SUBJECT_OPTIONS &&
      SheetKey(c1, d1, m1) == SheetKey(c2, d2, m2)
      ensures c1 == c2 && d1 == d2 && m1 == m2
    {
      SheetKeyInjective(c1, d1, m1, c2, d2, m2);
    }
  }

  /** currentSheetId.replace('_S2', '_S1') */
  function SiblingS1Key(key: string): string {
    ReplaceFirst(key, "_S2", "_S1")
  }

  /** The sibling of a semester-2 key is the semester-1 key of the same class and
      subject, when neither name holds '_' and the subject does not start "S2". */
  lemma SiblingOfSemesterTwo(c: string, d: string)
    requires '_' !in c && '_' !in d
    requires !(|d| >= 2 && d[0] == 'S' && d[1] == '2')
    ensures SiblingS1Key(SheetKey(c, d, 2)) == SheetKey(c, d, 1)
  {
    var x := c + "_" + d;
    var s := x + "_S2" + "";
    assert IntToString(2) == "2" && IntToString(1) == "1";
    assert SheetKey(c, d, 2) == s;
    assert SheetKey(c, d, 1) == x + "_S1" + "";
    forall i | 0 <= i < |x| ensures !OccursAt(s, "_S2", i) {
      if i < |c| {
        assert s[i] == c[i];
      } else if i > |c| {
        assert s[i] == d[i - |c| - 1];
      } else if |d| >= 2 {
        assert s[i + 1] == d[0] && s[i + 2] == d[1];
      } else if |d| == 1 {
        assert s[i + 2] == '_';
      } else {
        assert s[i + 1] == '_';
      }
    }
    ReplaceFirstAt(x, "_S2", "_S1", "");
  }

  // ---------------------------------------------------------------------------
  // New sheets

  /** The metadata of a new sheet: no teacher, coefficient 1. */
  function DefaultMetadata(cls: string, subject: string, semester: int): Metadata {
    Metadata(subject, cls, semester, "", 1.0)
  }

  /** generateInitialStudents(100) with the given identifiers. */
  function BlankRoster(ids: seq<string>): seq<Student>
    requires |ids| >= SLOTS
  {
    seq(SLOTS, i requires 0 <= i < SLOTS => BlankStudent(ids[i]))
  }

  function DefaultSheet(cls: string, subject: string, semester: int, ids: seq<string>): Sheet
    requires |ids| >= SLOTS
  {
    Sheet(DefaultMetadata(cls, subject, semester), BlankRoster(ids))
  }

  /** A roster of 100 blank slots with distinct ids drawn from ids. */
  predicate IsBlankRosterFrom(students: seq<Student>, ids: seq<string>) {
    && |students| == SLOTS
    && DistinctIds(students)
    && forall i :: 0 <= i < |students| ==> students[i] == BlankStudent(students[i].id) && students[i].id in ids
  }

  /** A blank roster built from distinct ids is 100 blank slots with distinct ids. */
  lemma BlankRosterSpec(ids: seq<string>)
    requires |ids| >= SLOTS && DistinctStrings(ids)
    ensures IsBlankRosterFrom(BlankRoster(ids), ids)
    ensures forall c, s1 :: Filter(Recalculated(BlankRoster(ids), c, s1), IsActive) == []
  {
    var r := BlankRoster(ids);
    forall c, s1 ensures Filter(Recalculated(r, c, s1), IsActive) == [] {
      var q := Recalculated(r, c, s1);
      forall i | 0 <= i < |q| ensures !IsActive(q[i]) {
        assert q[i].noms == "" && q[i].prenoms == "";
      }
      FilterNone(q, IsActive);
    }
  }

  lemma DistinctSlice(ids: seq<string>, lo: nat, hi: nat)
    requires lo <= hi <= |ids| && DistinctStrings(ids)
    ensures DistinctStrings(ids[lo..hi])
  {
    var t := ids[lo..hi];
    forall i, j | 0 <= i < j < |t| ensures t[i] != t[j] {
      assert t[i] == ids[lo + i] && t[j] == ids[lo + j];
    }
  }

  /** The database with the sheet for (cls, subject, semester) created when it is
      absent and left as it is when present. */
  function WithSheet(db: map<string, Sheet>, cls: string, subject: string, semester: int, ids: seq<string>): map<string, Sheet>
    requires |ids| >= SLOTS
  {
    var key := SheetKey(cls, subject, semester);
    if key in db then db else db[key := DefaultSheet(cls, subject, semester, ids)]
  }

  /** Creating a sheet only ever adds the one key, and never changes a sheet that
      is already there. */
  lemma WithSheetSpec(db: map<string, Sheet>, cls: string, subject: string, semester: int, ids: seq<string>)
    requires |ids| >= SLOTS
    ensures var r := WithSheet(db, cls, subject, semester, ids);
      && r.Keys == db.Keys + {SheetKey(cls, subject, semester)}
      && (forall k :: k in db ==> r[k] == db[k])
      && (SheetKey(cls, subject, semester) !in db ==>
            r[SheetKey(cls, subject, semester)].metadata == DefaultMetadata(cls, subject, semester))
  {
  }

  // ---------------------------------------------------------------------------
  // Metadata edits

  /** (field, value) pairs handleMetadataChange receives. */
  datatype MetadataEdit =
    | SetClasse(classe: string)
    | SetSemester(semester: int)
    | SetDiscipline(discipline: string)
    | SetProfesseur(professeur: string)
    | SetCoefficient(coefficient: real)

  /** Edits that move to another sheet rather than edit this one. */
  predicate Navigates(edit: MetadataEdit) {
    edit.SetClasse? || edit.SetSemester?
  }

  /** { ...metadata, [field]: value } for the fields edited in place. */
  function ApplyMetadataEdit(meta: Metadata, edit: MetadataEdit): Metadata
    requires !Navigates(edit)
  {
    match edit
    case SetDiscipline(v) => meta.(discipline := v)
    case SetProfesseur(v) => meta.(professeur := v)
    case SetCoefficient(v) => meta.(coefficient := v)
  }

  /** An in-place metadata edit never changes the class or semester, sets the edited
      field to the value, and keeps every other field. */
  lemma MetadataEditKeeps(meta: Metadata, edit: MetadataEdit)
    requires !Navigates(edit)
    ensures var r := ApplyMetadataEdit(meta, edit);
      && r.classe == meta.classe && r.semester == meta.semester
      && (if edit.SetDiscipline? then r.discipline == edit.discipline else r.discipline == meta.discipline)
      && (if edit.SetProfesseur? then r.professeur == edit.professeur else r.professeur == meta.professeur)
      && (if edit.SetCoefficient? then r.coefficient == edit.coefficient else r.coefficient == meta.coefficient)
  {
  }

  /** The key a navigating edit moves to: the new class or semester, with the
      sheet's own discipline. */
  function NavigationKey(meta: Metadata, edit: MetadataEdit): string
    requires Navigates(edit)
  {
    match edit
    case SetClasse(c) => SheetKey(c, meta.discipline, meta.semester)
    case SetSemester(m) => SheetKey(meta.classe, meta.discipline, m)
  }

  /** Moving by class keeps subject and semester; moving by semester keeps class
      and subject. */
  lemma NavigationKeyParts(meta: Metadata, edit: MetadataEdit)
    requires Navigates(edit) && '_' !in meta.classe && '_' !in meta.discipline
    requires edit.SetClasse? ==> '_' !in edit.classe
    ensures edit.SetClasse? ==>
      forall c, d, m :: '_' !in c && '_' !in d && NavigationKey(meta, edit) == SheetKey(c, d, m) ==>
        c == edit.classe && d == meta.discipline && m == meta.semester
    ensures edit.SetSemester? ==>
      forall c, d, m :: '_' !in c && '_' !in d && NavigationKey(meta, edit) == SheetKey(c, d, m) ==>
        c == meta.classe && d == meta.discipline && m == edit.semester
  {
    forall c, d, m | '_' !in c && '_' !in d && NavigationKey(meta, edit) == SheetKey(c, d, m)
      ensures edit.SetClasse? ==> c == edit.classe && d == meta.discipline && m == meta.semester
      ensures edit.SetSemester? ==> c == meta.classe && d == meta.discipline && m == edit.semester
    {
      match edit
      case SetClasse(v) => SheetKeyInjective(v, meta.discipline, meta.semester, c, d, m);
      case SetSemester(v) => SheetKeyInjective(meta.classe, meta.discipline, v, c, d, m);
    }
  }

  // ---------------------------------------------------------------------------
  // Student edits

  /** (field, value) pairs the grade table sends to handleStudentUpdate. */
  datatype StudentEdit =
    | SetPrenoms(prenoms: string)
    | SetNoms(noms: string)
    | SetSexe(sexe: Gender)
    | SetD1(d1: Score)
    | SetD2(d2: Score)
    | SetD3(d3: Score)
    | SetComp(comp: Score)

  /** { ...s, [field]: value } */
  function ApplyStudentEdit(st: Student, edit: StudentEdit): Student {
    match edit
    case SetPrenoms(v) => st.(prenoms := v)
    case SetNoms(v) => st.(noms := v)
    case SetSexe(v) => st.(sexe := v)
    case SetD1(v) => st.(d1 := v)
    case SetD2(v) => st.(d2 := v)
    case SetD3(v) => st.(d3 := v)
    case SetComp(v) => st.(comp := v)
  }

  /** The edit keeps the id and every derived field; of the entered fields it
      changes the edited one only. */
  lemma StudentEditKeeps(st: Student, edit: StudentEdit)
    ensures var r := ApplyStudentEdit(st, edit);
      && r.id == st.id && r.moyDev == st.moyDev && r.moyenne == st.moyenne && r.moyCoef == st.moyCoef
      && r.moyG == st.moyG && r.rang == st.rang && r.mention == st.mention
      && (if edit.SetPrenoms? then r.prenoms == edit.prenoms else r.prenoms == st.prenoms)
      && (if edit.SetNoms? then r.noms == edit.noms else r.noms == st.noms)
      && (if edit.SetSexe? then r.sexe == edit.sexe else r.sexe == st.sexe)
      && (if edit.SetD1? then r.d1 == edit.d1 else r.d1 == st.d1)
      && (if edit.SetD2? then r.d2 == edit.d2 else r.d2 == st.d2)
      && (if edit.SetD3? then r.d3 == edit.d3 else r.d3 == st.d3)
      && (if edit.SetComp? then r.comp == edit.comp else r.comp == st.comp)
  {
  }

  /** students.map(s => s.id === id ? { ...s, [field]: value } : s) */
  function UpdateRoster(students: seq<Student>, id: string, edit: StudentEdit): seq<Student> {
    seq(|students|, i requires 0 <= i < |students| =>
      if students[i].id == id then ApplyStudentEdit(students[i], edit) else students[i])
  }

  /** Only the student with that id changes, the roster keeps its length, order
      and ids, and with no matching id nothing changes. */
  lemma UpdateRosterSpec(students: seq<Student>, id: string, edit: StudentEdit)
    ensures var r := UpdateRoster(students, id, edit);
      && |r| == |students|
      && (forall i :: 0 <= i < |r| ==> r[i].id == students[i].id)
      && (forall i :: 0 <= i < |r| && students[i].id != id ==> r[i] == students[i])
      && (forall i :: 0 <= i < |r| && students[i].id == id ==> r[i] == ApplyStudentEdit(students[i], edit))
      && ((forall i :: 0 <= i < |students| ==> students[i].id != id) ==> r == students)
      && (DistinctIds(students) ==> DistinctIds(r))
  {
    var r := UpdateRoster(students, id, edit);
    forall i | 0 <= i < |r| ensures r[i].id == students[i].id {
      StudentEditKeeps(students[i], edit);
    }
  }

  /** With distinct ids, an update touches at most one student. */
  lemma UpdateTouchesOne(students: seq<Student>, id: string, edit: StudentEdit, i: nat)
    requires DistinctIds(students) && i < |students| && students[i].id == id
    ensures forall j :: 0 <= j < |students| && j != i ==> UpdateRoster(students, id, edit)[j] == students[j]
  {
  }

  // ---------------------------------------------------------------------------
  // Sorting a sheet

  /** handleSort's new roster: recomputed without semester-1 data, the named
      students sorted by moyenne, then the blank rows. */
  function SortedRoster(students: seq<Student>, coefficient: real): seq<Student> {
    var computed := Recalculated(students, coefficient, []);
    SortByMoyenne(Filter(computed, IsNamed)) + Filter(computed, BlankNames)
  }

  function IdOf(st: Student): string {
    st.id
  }

  /** The ids of a roster, in order. */
  function Ids(s: seq<Student>): seq<string> {
    MapSeq(s, IdOf)
  }

  lemma DistinctIdsIff(s: seq<Student>)
    ensures DistinctIds(s) <==> DistinctStrings(Ids(s))
  {
    forall i | 0 <= i < |s| ensures Ids(s)[i] == s[i].id {
      assert Ids(s)[i] == IdOf(s[i]);
    }
  }

  /** Distinct elements are those that occur at most once. */
  lemma {:induction false} DistinctMultiplicity(x: seq<string>)
    ensures DistinctStrings(x) <==> forall v :: multiset(x)[v] <= 1
  {
    if x != [] {
      var h, t := x[0], x[1..];
      DistinctMultiplicity(t);
      assert x == [h] + t;
      assert multiset(x) == multiset{h} + multiset(t);
      if DistinctStrings(x) {
        assert DistinctStrings(t) by {
          forall i, j | 0 <= i < j < |t| ensures t[i] != t[j] {
            assert t[i] == x[i + 1] && t[j] == x[j + 1];
          }
        }
        assert h !in t by {
          forall j | 0 <= j < |t| ensures t[j] != h {
            assert t[j] == x[j + 1];
          }
        }
      }
      if forall v :: multiset(x)[v] <= 1 {
        assert multiset(t)[h] == 0 by {
          assert multiset(x)[h] == 1 + multiset(t)[h];
        }
        forall v ensures multiset(t)[v] <= 1 {
          assert multiset(t)[v] <= multiset(x)[v];
        }
        forall i, j | 0 <= i < j < |x| ensures x[i] != x[j] {
          if i == 0 {
            assert x[j] == t[j - 1];
            assert x[j] in multiset(t);
          } else {
            assert x[i] == t[i - 1] && x[j] == t[j - 1];
          }
        }
      }
    }
  }

  /** Reordering a roster keeps its ids distinct. */
  lemma DistinctIdsPermutation(a: seq<Student>, b: seq<Student>)
    requires multiset(a) == multiset(b) && DistinctIds(a)
    ensures DistinctIds(b)
  {
    MapSeqPermutation(a, b, IdOf);
    DistinctIdsIff(a);
    DistinctIdsIff(b);
    DistinctMultiplicity(Ids(a));
    DistinctMultiplicity(Ids(b));
  }

  /** Recomputing keeps length, order and ids. */
  lemma RecalculatedKeepsIds(students: seq<Student>, coefficient: real, s1: seq<Student>)
    ensures |Recalculated(students, coefficient, s1)| == |students|
    ensures forall i :: 0 <= i < |students| ==> Recalculated(students, coefficient, s1)[i].id == students[i].id
    ensures DistinctIds(students) ==> DistinctIds(Recalculated(students, coefficient, s1))
  {
    CalculateKeepsRaw(students, coefficient, s1);
  }

  /** Named and blank rows are complementary. */
  lemma NamedOrBlank()
    ensures forall st :: IsNamed(st) != BlankNames(st)
  {
  }

  /** The sorted roster is a reordering of the recomputed roster. */
  lemma SortedRosterPermutation(students: seq<Student>, coefficient: real)
    ensures multiset(SortedRoster(students, coefficient)) == multiset(Recalculated(students, coefficient, []))
    ensures |SortedRoster(students, coefficient)| == |students|
    ensures DistinctIds(students) ==> DistinctIds(SortedRoster(students, coefficient))
  {
    var computed := Recalculated(students, coefficient, []);
    var filled := Filter(computed, IsNamed);
    SortSpec(filled);
    NamedOrBlank();
    FilterMultiset(computed, IsNamed, BlankNames);
    RecalculatedKeepsIds(students, coefficient, []);
    var r := SortedRoster(students, coefficient);
    assert |r| == |multiset(r)|;
    if DistinctIds(students) {
      DistinctIdsPermutation(computed, r);
    }
  }

  /** The first n rows (n named students) are named and in non-increasing
      moyenne, equal moyennes keeping their order; the rest are the blank rows in
      their original order. */
  lemma SortedRosterLayout(students: seq<Student>, coefficient: real, n: nat)
    requires n == |Filter(Recalculated(students, coefficient, []), IsNamed)|
    ensures var r, computed := SortedRoster(students, coefficient), Recalculated(students, coefficient, []);
      && n <= |r|
      && (forall i :: 0 <= i < n ==> IsNamed(r[i]))
      && (forall i :: n <= i < |r| ==> !IsNamed(r[i]))
      && SortedDesc(r[..n])
      && (forall v :: Ties(r[..n], v) == Ties(Filter(computed, IsNamed), v))
      && r[n..] == Filter(computed, BlankNames)
  {
    var computed := Recalculated(students, coefficient, []);
    var filled, empty := Filter(computed, IsNamed), Filter(computed, BlankNames);
    var sorted := SortByMoyenne(filled);
    var r := SortedRoster(students, coefficient);
    SortSpec(filled);
    assert r[..n] == sorted && r[n..] == empty;
    FilterSpec(computed, IsNamed);
    FilterSpec(computed, BlankNames);
    forall i | 0 <= i < n ensures IsNamed(r[i]) {
      SortMembers(filled, i);
    }
    forall i | n <= i < |r| ensures !IsNamed(r[i]) {
      assert r[i] == empty[i - n];
    }
    forall v ensures Ties(r[..n], v) == Ties(filled, v) {
      SortStable(filled, v);
    }
  }

  /** Sorting uses no semester-1 data: no sorted row carries an annual average. */
  lemma SortedRosterNoAnnual(students: seq<Student>, coefficient: real)
    ensures forall i :: 0 <= i < |SortedRoster(students, coefficient)| ==> SortedRoster(students, coefficient)[i].moyG == None
  {
    var computed := Recalculated(students, coefficient, []);
    var r := SortedRoster(students, coefficient);
    SortedRosterPermutation(students, coefficient);
    CalculateKeepsRaw(students, coefficient, []);
    forall i | 0 <= i < |r| ensures r[i].moyG == None {
      assert r[i] in multiset(computed);
      var j :| 0 <= j < |computed| && computed[j] == r[i];
      assert computed[j].moyG == AnnualAverage(students[j], []);
    }
  }

  // ---------------------------------------------------------------------------
  // Resetting a sheet

  /** Every row blanked except its id: names, gender, scores and derived fields. */
  function ResetRoster(students: seq<Student>): seq<Student> {
    seq(|students|, i requires 0 <= i < |students| => BlankStudent(students[i].id))
  }

  /** The reset keeps length, order and ids; recomputing afterwards gives every
      student moyenne 0, mention '' and rank 1 (they all tie), an annual average
      only when there is semester-1 data, and no active student. */
  lemma ResetThenRecalculate(students: seq<Student>, coefficient: real, s1: seq<Student>)
    ensures |ResetRoster(students)| == |students|
    ensures forall i :: 0 <= i < |students| ==> ResetRoster(students)[i].id == students[i].id
    ensures var r := Recalculated(ResetRoster(students), coefficient, s1);
      && |r| == |students|
      && (forall i :: 0 <= i < |r| ==>
            r[i].moyenne == 0.0 && r[i].mention == "" && r[i].rang == 1 && (r[i].moyG == None <==> s1 == []))
      && CalculateClassStats(r).totalStudents == 0
  {
    var computed := Calculate(ResetRoster(students), coefficient, s1);
    ResetComputed(students, coefficient, s1);
    AllTiedRankOne(computed);
    UnnamedRosterEmptyStats(Ranked(computed));
  }

  /** When every moyenne is 0 nobody is above anybody: all ranks are 1. */
  lemma AllTiedRankOne(computed: seq<Student>)
    requires forall i :: 0 <= i < |computed| ==> computed[i].moyenne == 0.0
    ensures |Ranked(computed)| == |computed|
    ensures forall i :: 0 <= i < |computed| ==> Ranked(computed)[i] == computed[i].(rang := 1)
  {
    CountNoneAbove(computed, 0.0);
  }

  /** Computing a reset roster: every row scores 0 with no mention and no name. */
  lemma ResetComputed(students: seq<Student>, coefficient: real, s1: seq<Student>)
    ensures var c := Calculate(ResetRoster(students), coefficient, s1);
      && |c| == |students|
      && forall i :: 0 <= i < |c| ==>
           && c[i].moyenne == 0.0 && c[i].mention == "" && !IsNamed(c[i])
           && (c[i].moyG == None <==> s1 == [])
  {
    var blank := ResetRoster(students);
    var c := Calculate(blank, coefficient, s1);
    CalculateKeepsRaw(blank, coefficient, s1);
    forall i | 0 <= i < |c|
      ensures c[i].moyenne == 0.0 && c[i].mention == "" && !IsNamed(c[i])
    {
      BlankStudentComputes(students[i].id, coefficient, s1);
      assert c[i].noms == "" && c[i].prenoms == "";
    }
  }

  // ---------------------------------------------------------------------------
  // The view of the current sheet

  /** The semester-1 roster a semester-2 view uses: the sibling sheet recomputed
      with its own coefficient, or none. */
  function S1Students(db: map<string, Sheet>, key: string): seq<Student>
    requires key in db
  {
    var s1Key := SiblingS1Key(key);
    if db[key].metadata.semester == 2 && s1Key in db then
      Recalculated(db[s1Key].students, db[s1Key].metadata.coefficient, [])
    else []
  }

  /** calculatedStudents: the current sheet recomputed, or nothing when no sheet
      is selected. */
  function CurrentView(db: map<string, Sheet>, key: string): seq<Student> {
    if key == "" || key !in db then []
    else Recalculated(db[key].students, db[key].metadata.coefficient, S1Students(db, key))
  }

  /** A sheet whose metadata is not semester 2 shows no annual average. */
  lemma NoAnnualOutsideSemesterTwo(db: map<string, Sheet>, key: string)
    requires key in db && db[key].metadata.semester != 2
    ensures forall i :: 0 <= i < |CurrentView(db, key)| ==> CurrentView(db, key)[i].moyG == None
  {
    if key != "" {
      CalculateKeepsRaw(db[key].students, db[key].metadata.coefficient, []);
    }
  }

  /** The semester-2 sheet of an option class and subject reads the recomputed
      semester-1 sheet of the same class and subject. */
  lemma SemesterTwoReadsSemesterOne(db: map<string, Sheet>, c: string, d: string)
    requires c in CLASS_OPTIONS && d in SUBJECT_OPTIONS
    requires SheetKey(c, d, 2) in db && db[SheetKey(c, d, 2)].metadata.semester == 2
    ensures var s1Key := SheetKey(c, d, 1);
      S1Students(db, SheetKey(c, d, 2)) ==
        if s1Key in db then Recalculated(db[s1Key].students, db[s1Key].metadata.coefficient, []) else []
  {
    OptionsAreKeyParts();
    SiblingOfSemesterTwo(c, d);
  }

  // ---------------------------------------------------------------------------
  // The component state

  /** Every key for the given classes and subjects, semesters 1 and 2. */
  function KeysOf(classes: seq<string>, subjects: seq<string>): set<string> {
    set c, d, m | c in classes && d in subjects && 1 <= m <= 2 :: SheetKey(c, d, m)
  }

  /** Class and subject names a key can be split back into. */
  predicate KeyParts(classes: seq<string>, subjects: seq<string>) {
    (forall c :: c in classes ==> '_' !in c) && (forall d :: d in subjects ==> '_' !in d)
  }

  /** The first n sheets of initializeEmptyDb's order (class, then subject, then
      semester; four subjects) are present with their default metadata. */
  predicate HasDefaults(db: map<string, Sheet>, classes: seq<string>, subjects: seq<string>, n: int) {
    forall i, j, m :: 0 <= i < |classes| && 0 <= j < |subjects| && 1 <= m <= 2 && i * 8 + j * 2 + m - 1 < n ==>
      SheetKey(classes[i], subjects[j], m) in db &&
      db[SheetKey(classes[i], subjects[j], m)].metadata == DefaultMetadata(classes[i], subjects[j], m)
  }

  /** The first n sheets of initializeEmptyDb are in place, and every sheet so far
      has an initial key and a blank roster. */
  predicate InitialPart(db: map<string, Sheet>, classes: seq<string>, subjects: seq<string>, ids: seq<string>, n: int) {
    && HasDefaults(db, classes, subjects, n)
    && forall k :: k in db ==> k in KeysOf(classes, subjects) && IsBlankRosterFrom(db[k].students, ids)
  }

  /** The body of the innermost forEach: newDb[key] = { metadata, students }, the
      students made from the next 100 ids. */
  method AddDefaultSheet(db: map<string, Sheet>, classes: seq<string>, subjects: seq<string>,
                         ci: nat, si: nat, sem: int, ids: seq<string>, next: nat)
    returns (r: map<string, Sheet>)
    requires |subjects| == 4 && KeyParts(classes, subjects)
    requires ci < |classes| && si < |subjects| && 1 <= sem <= 2
    requires next + SLOTS <= |ids| && DistinctStrings(ids)
    requires InitialPart(db, classes, subjects, ids, ci * 8 + si * 2 + sem - 1)
    ensures InitialPart(r, classes, subjects, ids, ci * 8 + si * 2 + sem)
    ensures r.Keys == db.Keys + {SheetKey(classes[ci], subjects[si], sem)}
  {
    var cls, subj := classes[ci], subjects[si];
    var key := SheetKey(cls, subj, sem);
    var slots := ids[next..next + SLOTS];
    DistinctSlice(ids, next, next + SLOTS);
    assert slots[..SLOTS] == slots;
    var students := GenerateInitialStudents(SLOTS, slots);
    assert forall i :: 0 <= i < SLOTS ==> slots[i] in ids;
    HasDefaultsStep(db, classes, subjects, ci, si, sem, Sheet(DefaultMetadata(cls, subj, sem), students));
    r := db[key := Sheet(DefaultMetadata(cls, subj, sem), students)];
  }

  /** Positions in initializeEmptyDb's order are distinct. */
  lemma PositionInjective(i: int, j: int, m: int, i2: int, j2: int, m2: int)
    requires 0 <= j < 4 && 0 <= j2 < 4 && 1 <= m <= 2 && 1 <= m2 <= 2
    ensures i * 8 + j * 2 + m == i2 * 8 + j2 * 2 + m2 ==> i == i2 && j == j2 && m == m2
  {
  }

  /** Adding the next sheet in initializeEmptyDb's order extends the prefix by one;
      a sheet already present under the same key has the same metadata. */
  lemma HasDefaultsStep(db: map<string, Sheet>, classes: seq<string>, subjects: seq<string>,
                        ci: nat, si: nat, sem: int, sheet: Sheet)
    requires |subjects| == 4 && KeyParts(classes, subjects)
    requires ci < |classes| && si < |subjects| && 1 <= sem <= 2
    requires HasDefaults(db, classes, subjects, ci * 8 + si * 2 + sem - 1)
    requires sheet.metadata == DefaultMetadata(classes[ci], subjects[si], sem)
    ensures HasDefaults(db[SheetKey(classes[ci], subjects[si], sem) := sheet], classes, subjects, ci * 8 + si * 2 + sem)
  {
    var key := SheetKey(classes[ci], subjects[si], sem);
    var r := db[key := sheet];
    forall i, j, m | 0 <= i < |classes| && 0 <= j < |subjects| && 1 <= m <= 2 && i * 8 + j * 2 + m - 1 < ci * 8 + si * 2 + sem
      ensures SheetKey(classes[i], subjects[j], m) in r
      ensures r[SheetKey(classes[i], subjects[j], m)].metadata == DefaultMetadata(classes[i], subjects[j], m)
    {
      var k := SheetKey(classes[i], subjects[j], m);
      PositionInjective(i, j, m, ci, si, sem);
      if k == key {
        assert classes[i] in classes && classes[ci] in classes && subjects[j] in subjects && subjects[si] in subjects;
        SheetKeyInjective(classes[i], subjects[j], m, classes[ci], subjects[si], sem);
      }
    }
  }

  /** Once all sheets are in, the keys are exactly the keys of the classes and
      subjects, each with its default metadata. */
  lemma InitialDbComplete(db: map<string, Sheet>, classes: seq<string>, subjects: seq<string>, ids: seq<string>)
    requires |subjects| == 4
    requires InitialPart(db, classes, subjects, ids, |classes| * 8)
    ensures db.Keys == KeysOf(classes, subjects)
    ensures forall c, d, m :: c in classes && d in subjects && 1 <= m <= 2 ==>
      SheetKey(c, d, m) in db && db[SheetKey(c, d, m)].metadata == DefaultMetadata(c, d, m)
  {
    forall c, d, m | c in classes && d in subjects && 1 <= m <= 2
      ensures SheetKey(c, d, m) in db && db[SheetKey(c, d, m)].metadata == DefaultMetadata(c, d, m)
    {
      var i :| 0 <= i < |classes| && classes[i] == c;
      var j :| 0 <= j < |subjects| && subjects[j] == d;
      assert i * 8 + j * 2 + m - 1 < |classes| * 8;
    }
  }

  /** The nested forEach loops of initializeEmptyDb filling newDb: for each class,
      each subject and semesters 1 and 2, a default sheet. */
  method BuildInitialDb(classes: seq<string>, subjects: seq<string>, ids: seq<string>)
    returns (newDb: map<string, Sheet>)
    requires |subjects| == 4 && KeyParts(classes, subjects)
    requires |ids| >= |classes| * 800 && DistinctStrings(ids)
    ensures newDb.Keys == KeysOf(classes, subjects)
    ensures forall c, d, m :: c in classes && d in subjects && 1 <= m <= 2 ==>
      SheetKey(c, d, m) in newDb && newDb[SheetKey(c, d, m)].metadata == DefaultMetadata(c, d, m)
    ensures forall k :: k in newDb ==> IsBlankRosterFrom(newDb[k].students, ids)
  {
    newDb := map[];
    var next := 0;
    for ci := 0 to |classes|
      invariant next == ci * 800
      invariant InitialPart(newDb, classes, subjects, ids, ci * 8)
    {
      for si := 0 to |subjects|
        invariant next == ci * 800 + si * 200
        invariant InitialPart(newDb, classes, subjects, ids, ci * 8 + si * 2)
      {
        for sem := 1 to 3
          invariant next == ci * 800 + si * 200 + (sem - 1) * 100
          invariant InitialPart(newDb, classes, subjects, ids, ci * 8 + si * 2 + sem - 1)
        {
          newDb := AddDefaultSheet(newDb, classes, subjects, ci, si, sem, ids, next);
          next := next + SLOTS;
        }
      }
    }
    InitialDbComplete(newDb, classes, subjects, ids);
  }

  class SheetStore {
    var db: map<string, Sheet>
    var currentSheetId: string
    var view: View

    /** The current key is '' or a sheet of the database, and every roster has
        distinct ids. */
    predicate Valid()
      reads this
    {
      && (currentSheetId == "" || currentSheetId in db)
      && forall k :: k in db ==> DistinctIds(db[k].students)
    }

    /** The initial state: an empty database, no sheet selected, the dashboard. */
    constructor ()
      ensures db == map[] && currentSheetId == "" && view == Dashboard
      ensures Valid()
    {
      db := map[];
      currentSheetId := "";
      view := Dashboard;
    }

    /** initializeEmptyDb: one default sheet for each class, subject and semester
        1 and 2, each with 100 blank slots whose ids are taken from ids. */
    method InitializeEmptyDb(ids: seq<string>)
      requires |ids| >= SHEET_COUNT * SLOTS && DistinctStrings(ids)
      modifies this
      ensures db.Keys == KeysOf(CLASS_OPTIONS, SUBJECT_OPTIONS)
      ensures forall c, d, m :: c in CLASS_OPTIONS && d in SUBJECT_OPTIONS && 1 <= m <= 2 ==>
        db[SheetKey(c, d, m)].metadata == DefaultMetadata(c, d, m)
      ensures forall k :: k in db ==> IsBlankRosterFrom(db[k].students, ids)
      ensures currentSheetId == old(currentSheetId) && view == old(view)
      ensures currentSheetId == "" || currentSheetId in KeysOf(CLASS_OPTIONS, SUBJECT_OPTIONS) ==> Valid()
    {
      OptionsAreKeyParts();
      var newDb := BuildInitialDb(CLASS_OPTIONS, SUBJECT_OPTIONS, ids);
      db := newDb;
    }

    /** handleSelectClass: the sheet for the key is created only when absent, and
        becomes the current sheet of the editor. */
    method SelectClass(cls: string, subject: string, semester: int, ids: seq<string>)
      requires Valid()
      requires |ids| >= SLOTS && DistinctStrings(ids)
      modifies this
      ensures db == WithSheet(old(db), cls, subject, semester, ids)
      ensures currentSheetId == SheetKey(cls, subject, semester) && view == Editor
      ensures Valid()
    {
      var key := SheetKey(cls, subject, semester);
      if key !in db {
        var students := GenerateInitialStudents(SLOTS, ids);
        DistinctSlice(ids, 0, SLOTS);
        assert students == BlankRoster(ids);
        db := db[key := Sheet(DefaultMetadata(cls, subject, semester), students)];
      }
      currentSheetId := key;
      view := Editor;
    }

    /** handleMetadataChange: class and semester move to the sheet of the new key;
        the other fields are edited in the current sheet only. */
    method MetadataChange(edit: MetadataEdit, ids: seq<string>)
      requires Valid()
      requires |ids| >= SLOTS && DistinctStrings(ids)
      modifies this
      ensures old(currentSheetId) == "" ==> db == old(db) && currentSheetId == "" && view == old(view)
      ensures old(currentSheetId) != "" && Navigates(edit) ==>
        var meta := old(db)[old(currentSheetId)].metadata;
        var key := NavigationKey(meta, edit);
        && currentSheetId == key && view == Editor
        && db == (if key in old(db) then old(db)
                  else old(db)[key := Sheet(DefaultMetadata(
                    if edit.SetClasse? then edit.classe else meta.classe,
                    meta.discipline,
                    if edit.SetSemester? then edit.semester else meta.semester), BlankRoster(ids))])
      ensures old(currentSheetId) != "" && !Navigates(edit) ==>
        var sheet := old(db)[old(currentSheetId)];
        && currentSheetId == old(currentSheetId) && view == old(view)
        && db == old(db)[currentSheetId := sheet.(metadata := ApplyMetadataEdit(sheet.metadata, edit))]
      ensures Valid()
    {
      if currentSheetId == "" {
        return;
      }
      var meta := db[currentSheetId].metadata;
      match edit {
        case SetClasse(c) =>
          SelectClass(c, meta.discipline, meta.semester, ids);
        case SetSemester(m) =>
          SelectClass(meta.classe, meta.discipline, m, ids);
        case _ =>
          var sheet := db[currentSheetId];
          db := db[currentSheetId := sheet.(metadata := ApplyMetadataEdit(meta, edit))];
      }
    }

    /** handleStudentUpdate: the edit applied to the students of the current sheet
        whose id matches; nothing else changes. */
    method StudentUpdate(id: string, edit: StudentEdit)
      requires Valid()
      modifies this
      ensures currentSheetId == old(currentSheetId) && view == old(view)
      ensures old(currentSheetId) == "" ==> db == old(db)
      ensures old(currentSheetId) != "" ==>
        var sheet := old(db)[currentSheetId];
        db == old(db)[currentSheetId := sheet.(students := UpdateRoster(sheet.students, id, edit))]
      ensures Valid()
    {
      if currentSheetId == "" {
        return;
      }
      var sheet := db[currentSheetId];
      UpdateRosterSpec(sheet.students, id, edit);
      db := db[currentSheetId := sheet.(students := UpdateRoster(sheet.students, id, edit))];
    }

    /** handleSort: the current sheet's roster recomputed without semester-1 data,
        named students by moyenne first, then the blank rows. */
    method Sort()
      requires Valid()
      modifies this
      ensures currentSheetId == old(currentSheetId) && view == old(view)
      ensures old(currentSheetId) == "" ==> db == old(db)
      ensures old(currentSheetId) != "" ==>
        var sheet := old(db)[currentSheetId];
        db == old(db)[currentSheetId := sheet.(students := SortedRoster(sheet.students, sheet.metadata.coefficient))]
      ensures Valid()
    {
      if currentSheetId == "" {
        return;
      }
      var sheet := db[currentSheetId];
      var computed := RecalculateGrades(sheet.students, sheet.metadata.coefficient, []);
      var filled := Filter(computed, IsNamed);
      var empty := Filter(computed, BlankNames);
      var sortedFilled := SortByMoyenne(filled);
      SortedRosterPermutation(sheet.students, sheet.metadata.coefficient);
      db := db[currentSheetId := sheet.(students := sortedFilled + empty)];
    }

    /** handleReset: when confirmed, every row of the current sheet is blanked
        except its id; the metadata stays. */
    method Reset(confirmed: bool)
      requires Valid()
      modifies this
      ensures currentSheetId == old(currentSheetId) && view == old(view)
      ensures old(currentSheetId) == "" || !confirmed ==> db == old(db)
      ensures old(currentSheetId) != "" && confirmed ==>
        var sheet := old(db)[currentSheetId];
        db == old(db)[currentSheetId := sheet.(students := ResetRoster(sheet.students))]
      ensures Valid()
    {
      if currentSheetId == "" || !confirmed {
        return;
      }
      var sheet := db[currentSheetId];
      ResetThenRecalculate(sheet.students, sheet.metadata.coefficient, []);
      db := db[currentSheetId := sheet.(students := ResetRoster(sheet.students))];
    }

    /** calculatedStudents: for a semester-2 sheet the sibling semester-1 sheet is
        recomputed first and passed along. */
    method CalculatedStudents() returns (result: seq<Student>)
      requires Valid()
      ensures result == CurrentView(db, currentSheetId)
    {
      if currentSheetId == "" || currentSheetId !in db {
        return [];
      }
      var current := db[currentSheetId];
      var s1Students: seq<Student> := [];
      if current.metadata.semester == 2 {
        var s1Key := SiblingS1Key(currentSheetId);
        if s1Key in db {
          var s1Sheet := db[s1Key];
          s1Students := RecalculateGrades(s1Sheet.students, s1Sheet.metadata.coefficient, []);
        }
      }
      result := RecalculateGrades(current.students, current.metadata.coefficient, s1Students);
    }
  }
}
