/** calculateClassStats (utils.ts): the head-counts and the class average the
    dashboard and the exports show for one computed roster. */
module Stats {
  import opened Text
  import opened Grades

  datatype ClassStats = ClassStats(
    totalStudents: nat,
    passCount: nat,
    failCount: nat,
    femaleCount: nat,
    maleCount: nat,
    femalePassCount: nat,
    malePassCount: nat,
    classAverage: real)

  /** array.filter(p), keeping order. */
  function Filter<T>(s: seq<T>, p: T -> bool): seq<T> {
    if s == [] then []
    else (if p(s[0]) then [s[0]] else []) + Filter(s[1..], p)
  }

  /** The filter keeps exactly the elements that satisfy p, and no more of them. */
  lemma {:induction false} FilterSpec<T>(s: seq<T>, p: T -> bool)
    ensures |Filter(s, p)| <= |s|
    ensures forall x :: x in Filter(s, p) <==> x in s && p(x)
  {
    if s != [] {
      FilterSpec(s[1..], p);
      assert s == [s[0]] + s[1..];
    }
  }

  /** Two complementary tests split a list between them. */
  lemma {:induction false} FilterComplement<T>(s: seq<T>, p: T -> bool, q: T -> bool)
    requires forall x :: p(x) != q(x)
    ensures |Filter(s, p)| + |Filter(s, q)| == |s|
  {
    if s != [] {
      FilterComplement(s[1..], p, q);
    }
  }

  /** Two complementary tests split a list into two parts that together hold
      every element exactly as often as the list does. */
  lemma {:induction false} FilterMultiset<T>(s: seq<T>, p: T -> bool, q: T -> bool)
    requires forall x :: p(x) != q(x)
    ensures multiset(Filter(s, p)) + multiset(Filter(s, q)) == multiset(s)
  {
    if s != [] {
      FilterMultiset(s[1..], p, q);
      assert s == [s[0]] + s[1..];
    }
  }

  /** Two exclusive tests together select at most the whole list. */
  lemma {:induction false} FilterDisjoint<T>(s: seq<T>, p: T -> bool, q: T -> bool)
    requires forall x :: !(p(x) && q(x))
    ensures |Filter(s, p)| + |Filter(s, q)| <= |s|
  {
    if s != [] {
      FilterDisjoint(s[1..], p, q);
    }
  }

  /** Filtering a filtered list selects no more than filtering the whole list. */
  lemma {:induction false} FilterOfFilter<T>(s: seq<T>, p: T -> bool, q: T -> bool)
    ensures |Filter(Filter(s, p), q)| <= |Filter(s, q)|
  {
    if s != [] {
      FilterOfFilter(s[1..], p, q);
      FilterConcat([s[0]], Filter(s[1..], p), q);
      FilterConcat([], Filter(s[1..], p), q);
      assert [] + Filter(s[1..], p) == Filter(s[1..], p);
    }
  }

  lemma {:induction false} FilterConcat<T>(a: seq<T>, b: seq<T>, p: T -> bool)
    ensures Filter(a + b, p) == Filter(a, p) + Filter(b, p)
  {
    if a != [] {
      assert (a + b)[1..] == a[1..] + b;
      FilterConcat(a[1..], b, p);
    } else {
      assert a + b == b;
    }
  }

  /** noms.trim() !== '' || prenoms.trim() !== '' */
  predicate IsNamed(st: Student) {
    Trim(st.noms) != [] || Trim(st.prenoms) != []
  }

  /** Named, and with a positive moyenne, a D1 score or an exam score. D2 and D3
      are not consulted. */
  predicate IsActive(st: Student) {
    IsNamed(st) && (st.moyenne > 0.0 || st.d1.Mark? || st.comp.Mark?)
  }

  predicate Passes(st: Student) {
    st.moyenne >= 10.0
  }

  predicate Fails(st: Student) {
    st.moyenne < 10.0
  }

  predicate IsFemale(st: Student) {
    st.sexe == Female
  }

  predicate IsMale(st: Student) {
    st.sexe == Male
  }

  /** reduce((acc, curr) => acc + curr.moyenne, 0) */
  function SumMoyenne(s: seq<Student>): real {
    if s == [] then 0.0 else s[0].moyenne + SumMoyenne(s[1..])
  }

  /** total / count */
  function Mean(total: real, count: nat): real
    requires count > 0
  {
    total / count as real
  }

  /** The mean times the count gives the total back. */
  lemma MeanTimesCount(total: real, count: nat, m: real)
    requires count > 0 && m == Mean(total, count)
    ensures m * count as real == total
  {
  }

  /** The mean of values in [lo, hi] lies in [lo, hi]. */
  lemma MeanBounds(total: real, count: nat, lo: real, hi: real)
    requires count > 0
    requires lo * count as real <= total <= hi * count as real
    ensures lo <= Mean(total, count) <= hi
  {
    MeanTimesCount(total, count, Mean(total, count));
  }

  lemma {:induction false} SumMoyenneBounds(s: seq<Student>, lo: real, hi: real)
    requires forall i :: 0 <= i < |s| ==> lo <= s[i].moyenne <= hi
    ensures lo * |s| as real <= SumMoyenne(s) <= hi * |s| as real
  {
    if s != [] {
      SumMoyenneBounds(s[1..], lo, hi);
    }
  }

  /** calculateClassStats */
  function CalculateClassStats(students: seq<Student>): ClassStats {
    var active := Filter(students, IsActive);
    var count := |active|;
    if count == 0 then ClassStats(0, 0, 0, 0, 0, 0, 0, 0.0)
    else
      var pass := Filter(active, Passes);
      ClassStats(
        count,
        |pass|,
        |Filter(active, Fails)|,
        |Filter(active, IsFemale)|,
        |Filter(active, IsMale)|,
        |Filter(pass, IsFemale)|,
        |Filter(pass, IsMale)|,
        Mean(SumMoyenne(active), count))
  }

  /** The head-counts add up: pass + fail = total, the pass counts by gender are
      within the gender counts, and the two genders together are within the total
      (students with no gender set count in neither). */
  lemma ClassStatsCounts(students: seq<Student>)
    ensures var r := CalculateClassStats(students);
      && r.totalStudents == |Filter(students, IsActive)|
      && r.passCount + r.failCount == r.totalStudents
      && r.femalePassCount <= r.femaleCount
      && r.malePassCount <= r.maleCount
      && r.femaleCount + r.maleCount <= r.totalStudents
  {
    var active := Filter(students, IsActive);
    FilterComplement(active, Passes, Fails);
    FilterDisjoint(active, IsFemale, IsMale);
    FilterOfFilter(active, Passes, IsFemale);
    FilterOfFilter(active, Passes, IsMale);
  }

  /** Each count is the number of active students of that kind. */
  lemma ClassStatsMembers(students: seq<Student>)
    ensures var active := Filter(students, IsActive);
      && (forall st :: st in active <==> st in students && IsActive(st))
      && (|active| > 0 ==> forall st :: st in Filter(active, Passes) <==> st in students && IsActive(st) && st.moyenne >= 10.0)
  {
    var active := Filter(students, IsActive);
    FilterSpec(students, IsActive);
    FilterSpec(active, Passes);
  }

  /** With no active student every count and the average are 0. */
  lemma ClassStatsEmpty(students: seq<Student>)
    requires Filter(students, IsActive) == []
    ensures CalculateClassStats(students) == ClassStats(0, 0, 0, 0, 0, 0, 0, 0.0)
  {
  }

  /** Otherwise the average (a) times the count (n) is the sum of the active moyennes. */
  lemma ClassAverageIsMean(students: seq<Student>, a: real, n: nat)
    requires n == |Filter(students, IsActive)| && n > 0
    requires a == CalculateClassStats(students).classAverage
    ensures a * n as real == SumMoyenne(Filter(students, IsActive))
  {
    MeanTimesCount(SumMoyenne(Filter(students, IsActive)), n, a);
  }

  /** With every moyenne in [0, 20], the class average lies in [0, 20]. */
  lemma ClassAverageInRange(students: seq<Student>)
    requires forall i :: 0 <= i < |students| ==> 0.0 <= students[i].moyenne <= 20.0
    ensures 0.0 <= CalculateClassStats(students).classAverage <= 20.0
  {
    var active := Filter(students, IsActive);
    if |active| > 0 {
      FilterSpec(students, IsActive);
      forall i | 0 <= i < |active| ensures 0.0 <= active[i].moyenne <= 20.0 {
        assert active[i] in students;
      }
      SumMoyenneBounds(active, 0.0, 20.0);
      MeanBounds(SumMoyenne(active), |active|, 0.0, 20.0);
    }
  }

  /** Only D1 makes a zero-average student active: with the same name, a D1 of 0
      counts the student and a D2 of 0 does not. */
  lemma ActiveChecksOnlyD1(st: Student)
    requires IsNamed(st) && st.moyenne == 0.0 && st.comp.Blank?
    ensures IsActive(st.(d1 := Mark(0.0), d2 := Blank))
    ensures !IsActive(st.(d1 := Blank, d2 := Mark(0.0)))
  {
  }

  /** A roster with no name at all has no active student. */
  lemma UnnamedRosterEmptyStats(students: seq<Student>)
    requires forall i :: 0 <= i < |students| ==> !IsNamed(students[i])
    ensures CalculateClassStats(students) == ClassStats(0, 0, 0, 0, 0, 0, 0, 0.0)
  {
    FilterNone(students, IsActive);
  }

  lemma {:induction false} FilterNone<T>(s: seq<T>, p: T -> bool)
    requires forall i :: 0 <= i < |s| ==> !p(s[i])
    ensures Filter(s, p) == []
  {
    if s != [] {
      FilterNone(s[1..], p);
    }
  }
}
