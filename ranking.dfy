/** The roster half of recalculateGrades (utils.ts): every student is computed, a
    copy is sorted by moyenne in descending order, and the ranking loop gives each
    id its competition rank (1, 1, 3, ...). */
module Ranking {
  import opened Grades

  // ---------------------------------------------------------------------------
  // Counting the students above a moyenne

  /** The number of students whose moyenne is strictly greater than v. */
  function CountAbove(s: seq<Student>, v: real): nat {
    if s == [] then 0
    else CountAbove(s[..|s| - 1], v) + (if s[|s| - 1].moyenne > v then 1 else 0)
  }

  lemma {:induction false} CountAboveConcat(a: seq<Student>, b: seq<Student>, v: real)
    ensures CountAbove(a + b, v) == CountAbove(a, v) + CountAbove(b, v)
    decreases |b|
  {
    if b == [] {
      assert a + b == a;
    } else {
      assert (a + b)[..|a + b| - 1] == a + b[..|b| - 1];
      CountAboveConcat(a, b[..|b| - 1], v);
    }
  }

  /** Nobody is strictly above themselves, so the count leaves out at least one student. */
  lemma {:induction false} CountAboveBelowLength(s: seq<Student>, i: nat)
    requires i < |s|
    ensures CountAbove(s, s[i].moyenne) < |s|
  {
    var v := s[i].moyenne;
    if i < |s| - 1 {
      CountAboveBelowLength(s[..|s| - 1], i);
    } else {
      CountAboveAtMost(s[..|s| - 1], v);
    }
  }

  lemma {:induction false} CountAboveAtMost(s: seq<Student>, v: real)
    ensures CountAbove(s, v) <= |s|
  {
    if s != [] {
      CountAboveAtMost(s[..|s| - 1], v);
    }
  }

  /** A count over students that are all above v is the length. */
  lemma {:induction false} CountAllAbove(s: seq<Student>, v: real)
    requires forall k :: 0 <= k < |s| ==> s[k].moyenne > v
    ensures CountAbove(s, v) == |s|
  {
    if s != [] {
      CountAllAbove(s[..|s| - 1], v);
    }
  }

  /** A count over students none of whom is above v is 0. */
  lemma {:induction false} CountNoneAbove(s: seq<Student>, v: real)
    requires forall k :: 0 <= k < |s| ==> s[k].moyenne <= v
    ensures CountAbove(s, v) == 0
  {
    if s != [] {
      CountNoneAbove(s[..|s| - 1], v);
    }
  }

  /** Raising the threshold never raises the count. */
  lemma {:induction false} CountAboveMonotone(s: seq<Student>, u: real, w: real)
    requires w <= u
    ensures CountAbove(s, u) <= CountAbove(s, w)
  {
    if s != [] {
      CountAboveMonotone(s[..|s| - 1], u, w);
    }
  }

  /** A student between the two thresholds makes the count strictly smaller. */
  lemma {:induction false} CountAboveStrict(s: seq<Student>, u: real, w: real, i: nat)
    requires i < |s| && w < s[i].moyenne <= u
    ensures CountAbove(s, u) < CountAbove(s, w)
  {
    if i == |s| - 1 {
      CountAboveMonotone(s[..|s| - 1], u, w);
    } else {
      CountAboveStrict(s[..|s| - 1], u, w, i);
    }
  }

  /** The last element of a can be found in any permutation b of a; removing it
      from both leaves permutations of each other. */
  lemma PermutationSplit<T>(a: seq<T>, b: seq<T>) returns (j: nat)
    requires multiset(a) == multiset(b) && a != []
    ensures j < |b| && b[j] == a[|a| - 1]
    ensures b == b[..j] + [b[j]] + b[j + 1..]
    ensures multiset(a[..|a| - 1]) == multiset(b[..j] + b[j + 1..])
  {
    var x := a[|a| - 1];
    assert a == a[..|a| - 1] + [x];
    assert x in multiset(b);
    j :| 0 <= j < |b| && b[j] == x;
    assert b == b[..j] + [x] + b[j + 1..];
    calc {
      multiset(a[..|a| - 1]);
      multiset(a) - multiset{x};
      multiset(b) - multiset{x};
      multiset(b[..j]) + multiset(b[j + 1..]);
      multiset(b[..j] + b[j + 1..]);
    }
  }

  /** The count depends only on the multiset of students, not on their order. */
  lemma {:induction false} CountAbovePermutation(a: seq<Student>, b: seq<Student>, v: real)
    requires multiset(a) == multiset(b)
    ensures CountAbove(a, v) == CountAbove(b, v)
    decreases |a|
  {
    if a != [] {
      var x, init := a[|a| - 1], a[..|a| - 1];
      assert a == init + [x];
      var j := PermutationSplit(a, b);
      var rest := b[..j] + b[j + 1..];
      CountAbovePermutation(init, rest, v);
      CountAboveConcat(b[..j], [x], v);
      CountAboveConcat(b[..j] + [x], b[j + 1..], v);
      CountAboveConcat(b[..j], b[j + 1..], v);
      assert [x][..0] == [];
    }
  }

  // ---------------------------------------------------------------------------
  // The stable descending sort ([...].sort((a, b) => b.moyenne - a.moyenne))

  /** Non-increasing moyenne from left to right. */
  predicate SortedDesc(s: seq<Student>) {
    forall i, j :: 0 <= i < j < |s| ==> s[i].moyenne >= s[j].moyenne
  }

  /** Puts x after every student whose moyenne is at least its own. */
  function Insert(x: Student, t: seq<Student>): seq<Student> {
    if t == [] || t[0].moyenne < x.moyenne then [x] + t
    else [t[0]] + Insert(x, t[1..])
  }

  /** Array.prototype.sort with the comparator b.moyenne - a.moyenne. The sort is
      stable, so this is insertion of each student, from first to last, after the
      ones already placed with an equal moyenne. */
  function SortByMoyenne(s: seq<Student>): seq<Student> {
    if s == [] then [] else Insert(s[|s| - 1], SortByMoyenne(s[..|s| - 1]))
  }

  lemma {:induction false} InsertMultiset(x: Student, t: seq<Student>)
    ensures multiset(Insert(x, t)) == multiset(t) + multiset{x}
  {
    if t != [] && t[0].moyenne >= x.moyenne {
      InsertMultiset(x, t[1..]);
      assert t == [t[0]] + t[1..];
    }
  }

  /** Inserting under a common upper bound stays under it. */
  lemma {:induction false} InsertBounded(x: Student, t: seq<Student>, m: real)
    requires x.moyenne <= m && forall k :: 0 <= k < |t| ==> t[k].moyenne <= m
    ensures forall k :: 0 <= k < |Insert(x, t)| ==> Insert(x, t)[k].moyenne <= m
  {
    if t != [] && t[0].moyenne >= x.moyenne {
      InsertBounded(x, t[1..], m);
    }
  }

  lemma {:induction false} InsertSorted(x: Student, t: seq<Student>)
    requires SortedDesc(t)
    ensures SortedDesc(Insert(x, t))
  {
    if t != [] && t[0].moyenne >= x.moyenne {
      var r := Insert(x, t[1..]);
      InsertSorted(x, t[1..]);
      InsertBounded(x, t[1..], t[0].moyenne);
      var r' := Insert(x, t);
      assert r' == [t[0]] + r;
      forall p, q | 0 <= p < q < |r'| ensures r'[p].moyenne >= r'[q].moyenne {
        assert r'[q] == r[q - 1];
        if p > 0 {
          assert r'[p] == r[p - 1];
        }
      }
    }
  }

  /** The sorted copy is a permutation of the input, in non-increasing moyenne. */
  lemma {:induction false} SortSpec(s: seq<Student>)
    ensures multiset(SortByMoyenne(s)) == multiset(s)
    ensures |SortByMoyenne(s)| == |s|
    ensures SortedDesc(SortByMoyenne(s))
  {
    if s != [] {
      SortSpec(s[..|s| - 1]);
      InsertMultiset(s[|s| - 1], SortByMoyenne(s[..|s| - 1]));
      InsertSorted(s[|s| - 1], SortByMoyenne(s[..|s| - 1]));
      assert s == s[..|s| - 1] + [s[|s| - 1]];
    }
    assert |SortByMoyenne(s)| == |multiset(SortByMoyenne(s))|;
  }

  /** The students whose moyenne equals v, in order. */
  function Ties(s: seq<Student>, v: real): seq<Student> {
    if s == [] then []
    else (if s[0].moyenne == v then [s[0]] else []) + Ties(s[1..], v)
  }

  lemma {:induction false} TiesConcat(a: seq<Student>, b: seq<Student>, v: real)
    ensures Ties(a + b, v) == Ties(a, v) + Ties(b, v)
  {
    if a != [] {
      assert (a + b)[1..] == a[1..] + b;
      TiesConcat(a[1..], b, v);
    } else {
      assert a + b == b;
    }
  }

  lemma {:induction false} TiesNone(s: seq<Student>, v: real)
    requires forall k :: 0 <= k < |s| ==> s[k].moyenne < v
    ensures Ties(s, v) == []
  {
    if s != [] {
      TiesNone(s[1..], v);
    }
  }

  /** Inserting into a sorted list puts x after every equal student. */
  lemma {:induction false} InsertTies(x: Student, t: seq<Student>, v: real)
    requires SortedDesc(t)
    ensures Ties(Insert(x, t), v) == Ties(t, v) + (if x.moyenne == v then [x] else [])
  {
    if t == [] {
    } else if t[0].moyenne < x.moyenne {
      assert ([x] + t)[1..] == t;
      if x.moyenne == v {
        TiesNone(t, v);
      }
    } else {
      assert ([t[0]] + Insert(x, t[1..]))[1..] == Insert(x, t[1..]);
      InsertTies(x, t[1..], v);
    }
  }

  /** Stability: students with an equal moyenne keep their relative order. */
  lemma {:induction false} SortStable(s: seq<Student>, v: real)
    ensures Ties(SortByMoyenne(s), v) == Ties(s, v)
  {
    if s != [] {
      var init, x := s[..|s| - 1], s[|s| - 1];
      SortStable(init, v);
      SortSpec(init);
      InsertTies(x, SortByMoyenne(init), v);
      assert s == init + [x];
      TiesConcat(init, [x], v);
      assert [x][1..] == [];
    }
  }

  /** Every student of the sorted copy comes from the input. */
  lemma SortMembers(s: seq<Student>, k: nat)
    requires k < |SortByMoyenne(s)|
    ensures SortByMoyenne(s)[k] in s
  {
    SortSpec(s);
    assert SortByMoyenne(s)[k] in multiset(SortByMoyenne(s));
  }

  // ---------------------------------------------------------------------------
  // Computing and ranking a roster

  /** s.map(f) */
  function MapSeq<T, U>(s: seq<T>, f: T -> U): seq<U> {
    seq(|s|, i requires 0 <= i < |s| => f(s[i]))
  }

  lemma {:induction false} MapSeqConcat<T, U>(a: seq<T>, b: seq<T>, f: T -> U)
    ensures MapSeq(a + b, f) == MapSeq(a, f) + MapSeq(b, f)
  {
    var l, r := MapSeq(a + b, f), MapSeq(a, f) + MapSeq(b, f);
    forall k | 0 <= k < |l| ensures l[k] == r[k] {
      if k < |a| {
        assert (a + b)[k] == a[k];
      } else {
        assert (a + b)[k] == b[k - |a|];
      }
    }
  }

  /** Mapping a permutation gives a permutation. */
  lemma {:induction false} MapSeqPermutation<T, U>(a: seq<T>, b: seq<T>, f: T -> U)
    requires multiset(a) == multiset(b)
    ensures multiset(MapSeq(a, f)) == multiset(MapSeq(b, f))
    decreases |a|
  {
    if a != [] {
      var x, init := a[|a| - 1], a[..|a| - 1];
      assert a == init + [x];
      var j := PermutationSplit(a, b);
      var rest := b[..j] + b[j + 1..];
      MapSeqPermutation(init, rest, f);
      MapSeqConcat(init, [x], f);
      MapSeqConcat(b[..j] + [x], b[j + 1..], f);
      MapSeqConcat(b[..j], [x], f);
      MapSeqConcat(b[..j], b[j + 1..], f);
    }
  }

  /** Step 1 of recalculateGrades: students.map of the per-student computation. */
  function Calculate(students: seq<Student>, coefficient: real, s1: seq<Student>): seq<Student> {
    MapSeq(students, st => ComputeStudent(st, coefficient, s1))
  }

  /** The computed roster has the input's length and order, and keeps each
      student's raw fields, id and rank. */
  lemma CalculateKeepsRaw(students: seq<Student>, coefficient: real, s1: seq<Student>)
    ensures |Calculate(students, coefficient, s1)| == |students|
    ensures forall i :: 0 <= i < |students| ==>
      Calculate(students, coefficient, s1)[i] == ComputeStudent(students[i], coefficient, s1)
    ensures forall i :: 0 <= i < |students| ==>
      KeepsRaw(students[i], Calculate(students, coefficient, s1)[i])
    ensures DistinctIds(students) ==> DistinctIds(Calculate(students, coefficient, s1))
  {
  }

  /** The competition rank: one more than the number of students strictly above. */
  function RankIn(s: seq<Student>, v: real): int {
    1 + CountAbove(s, v)
  }

  /** Each computed student with its competition rank within the roster. */
  function Ranked(computed: seq<Student>): seq<Student> {
    seq(|computed|, i requires 0 <= i < |computed| =>
      computed[i].(rang := RankIn(computed, computed[i].moyenne)))
  }

  /** What recalculateGrades returns when ids are distinct. */
  function Recalculated(students: seq<Student>, coefficient: real, s1: seq<Student>): seq<Student> {
    Ranked(Calculate(students, coefficient, s1))
  }

  /** Where the moyenne drops (or at the top), the rank is the position plus one. */
  lemma RankAtDrop(s: seq<Student>, i: nat)
    requires SortedDesc(s) && i < |s|
    requires i == 0 || s[i - 1].moyenne > s[i].moyenne
    ensures RankIn(s, s[i].moyenne) == i + 1
  {
    var v := s[i].moyenne;
    var front, back := s[..i], s[i..];
    assert s == front + back;
    forall k | 0 <= k < |front| ensures front[k].moyenne > v {
      assert front[k] == s[k];
      assert s[k].moyenne >= s[i - 1].moyenne;
    }
    forall k | 0 <= k < |back| ensures back[k].moyenne <= v {
      assert back[k] == s[i + k];
    }
    CountAboveConcat(front, back, v);
    CountAllAbove(front, v);
    CountNoneAbove(back, v);
  }

  /** The ranking loop over the sorted copy. Each index either repeats the rank of
      the previous student (equal moyenne) or takes currentRank, which is always
      the index plus one; the map is keyed by id, so a later id overwrites. Every
      id gets the competition rank of some student carrying that id. */
  method RankMap(sorted: seq<Student>) returns (rankMap: map<string, int>)
    requires SortedDesc(sorted)
    ensures forall j :: 0 <= j < |sorted| ==> sorted[j].id in rankMap
    ensures forall k :: k in rankMap ==>
      (exists j :: 0 <= j < |sorted| && sorted[j].id == k && rankMap[k] == RankIn(sorted, sorted[j].moyenne))
  {
    rankMap := map[];
    var currentRank := 1;
    for i := 0 to |sorted|
      invariant currentRank == i + 1
      invariant forall j :: 0 <= j < i ==> sorted[j].id in rankMap
      invariant forall k :: k in rankMap ==>
        (exists j :: 0 <= j < i && sorted[j].id == k && rankMap[k] == RankIn(sorted, sorted[j].moyenne))
      invariant i > 0 ==> rankMap[sorted[i - 1].id] == RankIn(sorted, sorted[i - 1].moyenne)
    {
      if i > 0 && sorted[i].moyenne == sorted[i - 1].moyenne {
        rankMap := rankMap[sorted[i].id := rankMap[sorted[i - 1].id]];
      } else {
        RankAtDrop(sorted, i);
        rankMap := rankMap[sorted[i].id := currentRank];
      }
      currentRank := currentRank + 1;
    }
  }

  /** calculatedStudents.map(s => ({...s, rang: rankMap.get(s.id) || 0})) */
  function ApplyRanks(computed: seq<Student>, rankMap: map<string, int>): (r: seq<Student>)
    ensures |r| == |computed|
    ensures forall i :: 0 <= i < |computed| ==> r[i] == computed[i].(rang := r[i].rang)
    ensures forall i :: 0 <= i < |computed| && computed[i].id in rankMap ==>
      r[i].rang == rankMap[computed[i].id]
  {
    seq(|computed|, i requires 0 <= i < |computed| =>
      computed[i].(rang := if computed[i].id in rankMap then rankMap[computed[i].id] else 0))
  }

  /** Step 2 of recalculateGrades on a computed roster: rank a sorted copy, then
      give each student rankMap.get(id) || 0. Every rank lies in [1, n]; with
      distinct ids the result is Ranked. */
  method AssignRanks(computed: seq<Student>) returns (result: seq<Student>)
    ensures |result| == |computed|
    ensures forall i :: 0 <= i < |computed| ==> result[i] == computed[i].(rang := result[i].rang)
    ensures forall i :: 0 <= i < |computed| ==> 1 <= result[i].rang <= |computed|
    ensures DistinctIds(computed) ==> result == Ranked(computed)
  {
    var sortedForRank := SortByMoyenne(computed);
    SortSpec(computed);
    var rankMap := RankMap(sortedForRank);
    RankMapCovers(computed, sortedForRank, rankMap);
    result := ApplyRanks(computed, rankMap);
    if DistinctIds(computed) {
      forall i | 0 <= i < |computed| ensures result[i].rang == RankIn(computed, computed[i].moyenne) {
        RankOfDistinct(computed, sortedForRank, rankMap, i);
      }
    }
  }

  /** Every computed id has an entry, and every entry lies in [1, n]. */
  lemma RankMapCovers(computed: seq<Student>, sorted: seq<Student>, rankMap: map<string, int>)
    requires multiset(sorted) == multiset(computed) && |sorted| == |computed|
    requires forall j :: 0 <= j < |sorted| ==> sorted[j].id in rankMap
    requires forall k :: k in rankMap ==>
      (exists j :: 0 <= j < |sorted| && sorted[j].id == k && rankMap[k] == RankIn(sorted, sorted[j].moyenne))
    ensures forall i :: 0 <= i < |computed| ==> computed[i].id in rankMap
    ensures forall k :: k in rankMap ==> 1 <= rankMap[k] <= |computed|
  {
    forall k | k in rankMap ensures 1 <= rankMap[k] <= |computed| {
      var j :| 0 <= j < |sorted| && sorted[j].id == k && rankMap[k] == RankIn(sorted, sorted[j].moyenne);
      CountAboveBelowLength(sorted, j);
    }
    forall i | 0 <= i < |computed| ensures computed[i].id in rankMap {
      assert computed[i] in multiset(sorted);
    }
  }

  /** With distinct ids, the entry for a student's id is that student's own rank. */
  lemma RankOfDistinct(computed: seq<Student>, sorted: seq<Student>, rankMap: map<string, int>, i: nat)
    requires DistinctIds(computed) && multiset(sorted) == multiset(computed) && i < |computed|
    requires computed[i].id in rankMap
    requires forall k :: k in rankMap ==>
      (exists j :: 0 <= j < |sorted| && sorted[j].id == k && rankMap[k] == RankIn(sorted, sorted[j].moyenne))
    ensures rankMap[computed[i].id] == RankIn(computed, computed[i].moyenne)
  {
    var k := computed[i].id;
    var j :| 0 <= j < |sorted| && sorted[j].id == k && rankMap[k] == RankIn(sorted, sorted[j].moyenne);
    assert sorted[j] in multiset(computed);
    var i' :| 0 <= i' < |computed| && computed[i'] == sorted[j];
    assert i' == i;
    CountAbovePermutation(sorted, computed, computed[i].moyenne);
  }

  /** recalculateGrades: each student computed, in input order, with a rank in
      [1, n]; with distinct ids (the store keeps them distinct) the result is
      Recalculated. */
  method RecalculateGrades(students: seq<Student>, coefficient: real, s1: seq<Student>)
    returns (result: seq<Student>)
    ensures |result| == |students|
    ensures forall i :: 0 <= i < |students| ==>
      result[i] == ComputeStudent(students[i], coefficient, s1).(rang := result[i].rang)
    ensures forall i :: 0 <= i < |students| ==> 1 <= result[i].rang <= |students|
    ensures DistinctIds(students) ==> result == Recalculated(students, coefficient, s1)
  {
    var computed := Calculate(students, coefficient, s1);
    CalculateKeepsRaw(students, coefficient, s1);
    result := AssignRanks(computed);
  }

  // ---------------------------------------------------------------------------
  // Properties of the rank rule

  /** Every rank lies in [1, n] and the other fields are those of the input. */
  lemma RanksInRange(computed: seq<Student>, i: nat)
    requires i < |computed|
    ensures Ranked(computed)[i] == computed[i].(rang := Ranked(computed)[i].rang)
    ensures 1 <= Ranked(computed)[i].rang <= |computed|
  {
    CountAboveBelowLength(computed, i);
  }

  /** Equal moyenne, equal rank; a strictly higher moyenne, a strictly better rank. */
  lemma RankOrder(computed: seq<Student>, i: nat, j: nat)
    requires i < |computed| && j < |computed|
    ensures computed[i].moyenne == computed[j].moyenne ==> Ranked(computed)[i].rang == Ranked(computed)[j].rang
    ensures computed[i].moyenne > computed[j].moyenne ==> Ranked(computed)[i].rang < Ranked(computed)[j].rang
  {
    if computed[i].moyenne > computed[j].moyenne {
      CountAboveStrict(computed, computed[i].moyenne, computed[j].moyenne, i);
    }
  }

  /** The top moyenne gets rank 1. */
  lemma TopRankIsOne(computed: seq<Student>, i: nat)
    requires i < |computed|
    requires forall j :: 0 <= j < |computed| ==> computed[j].moyenne <= computed[i].moyenne
    ensures Ranked(computed)[i].rang == 1
  {
    CountNoneAbove(computed, computed[i].moyenne);
  }

  /** Ranks do not depend on the order of the input: the same student gets the
      same rank in any permutation of the roster. */
  lemma RanksOrderIndependent(a: seq<Student>, b: seq<Student>, coefficient: real, s1: seq<Student>, i: nat, j: nat)
    requires multiset(a) == multiset(b)
    requires i < |a| && j < |b| && a[i] == b[j]
    ensures Recalculated(a, coefficient, s1)[i].rang == Recalculated(b, coefficient, s1)[j].rang
  {
    var f := st => ComputeStudent(st, coefficient, s1);
    var ca, cb := MapSeq(a, f), MapSeq(b, f);
    MapSeqPermutation(a, b, f);
    assert ca[i] == cb[j];
    CountAbovePermutation(ca, cb, ca[i].moyenne);
  }

  /** The worked example: moyennes 15, 15 and 10 rank 1, 1 and 3. */
  lemma RankExample(s: seq<Student>)
    requires |s| == 3 && s[0].moyenne == 15.0 && s[1].moyenne == 15.0 && s[2].moyenne == 10.0
    ensures Ranked(s)[0].rang == 1 && Ranked(s)[1].rang == 1 && Ranked(s)[2].rang == 3
  {
    assert s[..2][..1] == [s[0]];
    assert s[..2] == [s[0], s[1]];
    assert CountAbove([s[0]], 15.0) == 0 && CountAbove([s[0]], 10.0) == 1;
    assert CountAbove(s[..2], 15.0) == 0 && CountAbove(s[..2], 10.0) == 2;
  }
}
