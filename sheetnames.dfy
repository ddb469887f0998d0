/** The worksheet names of the full-database export (utils.ts): each sheet is named
    after its class, subject and semester, cleaned of the characters Excel forbids,
    cut to 31 characters and, when the workbook already holds that name, given the
    first free "(n)" suffix. */
module SheetNames {
  import opened Text
  import opened Grades

  /** Excel's limit on the length of a worksheet name. */
  const MAX_SHEET_NAME: nat := 31

  /** The characters the pattern /[[\]*:?/\\]/g matches. */
  predicate IsIllegalSheetChar(c: char) {
    c == '[' || c == ']' || c == '*' || c == ':' || c == '?' || c == '/' || c == '\\'
  }

  /** replace(/[[\]*:?/\\]/g, '_') */
  function Sanitize(s: string): string {
    seq(|s|, i requires 0 <= i < |s| => if IsIllegalSheetChar(s[i]) then '_' else s[i])
  }

  function Min(a: nat, b: nat): nat {
    if a <= b then a else b
  }

  /** The sheet's key, built from its metadata. */
  function RawSheetName(meta: Metadata): string {
    SheetKey(meta.classe, meta.discipline, meta.semester)
  }

  /** The cleaned name, cut to 31 characters. */
  function SheetNameFor(meta: Metadata): string {
    var clean := Sanitize(RawSheetName(meta));
    if |clean| > MAX_SHEET_NAME then clean[..MAX_SHEET_NAME] else clean
  }

  /** The sheet name has no forbidden character and at most 31 characters; it is
      a prefix of the cleaned name, every other character kept as it was, and it is
      the raw name itself when that was already legal and short enough. */
  lemma SheetNameLegal(meta: Metadata)
    ensures var r, raw := SheetNameFor(meta), RawSheetName(meta);
      && |r| == Min(|raw|, MAX_SHEET_NAME)
      && (forall i :: 0 <= i < |r| ==> !IsIllegalSheetChar(r[i]))
      && (forall i :: 0 <= i < |r| ==> r[i] == (if IsIllegalSheetChar(raw[i]) then '_' else raw[i]))
      && ((forall i :: 0 <= i < |raw| ==> !IsIllegalSheetChar(raw[i])) && |raw| <= MAX_SHEET_NAME ==> r == raw)
  {
  }

  /** `${sheetName.substring(0, 28)}(${counter})` */
  function Candidate(name: string, k: nat): string {
    name[..Min(28, |name|)] + "(" + NatToString(k) + ")"
  }

  /** A string built as prefix + "(" + digits + ")" has its last '(' right after the prefix. */
  lemma LastOpenParen(p: string, d: string)
    requires forall i :: 0 <= i < |d| ==> '0' <= d[i] <= '9'
    ensures var s := p + "(" + d + ")";
      s[|p|] == '(' && forall i :: |p| < i < |s| ==> s[i] != '('
  {
    var s := p + "(" + d + ")";
    forall i | |p| < i < |s| ensures s[i] != '(' {
      if i < |s| - 1 {
        assert s[i] == d[i - |p| - 1];
      }
    }
  }

  /** Two "(n)"-suffixed strings are equal only when their numbers are. */
  lemma SuffixInjective(p: string, q: string, a: nat, b: nat)
    requires p + "(" + NatToString(a) + ")" == q + "(" + NatToString(b) + ")"
    ensures a == b && p == q
  {
    var s := p + "(" + NatToString(a) + ")";
    var da, db := NatToString(a), NatToString(b);
    LastOpenParen(p, da);
    LastOpenParen(q, db);
    assert |p| == |q|;
    assert p == s[..|p|] == q;
    assert da == s[|p| + 1..|s| - 1] == db;
    NatToStringInjective(a, b);
  }

  /** Different counters give different candidates. */
  lemma CandidateInjective(name: string, a: nat, b: nat)
    requires Candidate(name, a) == Candidate(name, b)
    ensures a == b
  {
    var p := name[..Min(28, |name|)];
    SuffixInjective(p, p, a, b);
  }

  /** Room left for the name in front of "(" + digits + ")" within 31 characters. */
  function Room(k: nat): nat {
    var d := |NatToString(k)| + 2;
    if d <= MAX_SHEET_NAME then MAX_SHEET_NAME - d else 0
  }

  /** The candidate with the name cut to what the counter's digits leave of the 31
      characters, so that the suffixed name still fits. */
  function FittedCandidate(name: string, k: nat): string {
    name[..Min(Room(k), |name|)] + "(" + NatToString(k) + ")"
  }

  /** How room is made for the "(n)" suffix: by cutting the name to 28 characters
      whatever the counter (the code as written), or by fitting it to 31. */
  datatype Suffixing = Cut28 | FitTo31

  function CandidateBy(mode: Suffixing, name: string, k: nat): string {
    match mode
    case Cut28 => Candidate(name, k)
    case FitTo31 => FittedCandidate(name, k)
  }

  /** Under either rule, different counters give different candidates. */
  lemma CandidateByInjective(mode: Suffixing, name: string, a: nat, b: nat)
    requires CandidateBy(mode, name, a) == CandidateBy(mode, name, b)
    ensures a == b
  {
    match mode
    case Cut28 =>
      CandidateInjective(name, a, b);
    case FitTo31 =>
      SuffixInjective(name[..Min(Room(a), |name|)], name[..Min(Room(b), |name|)], a, b);
  }

  /** The elements of s other than x. */
  function Without(s: seq<string>, x: string): seq<string> {
    if s == [] then []
    else (if s[0] == x then [] else [s[0]]) + Without(s[1..], x)
  }

  lemma {:induction false} WithoutSpec(s: seq<string>, x: string)
    ensures |Without(s, x)| <= |s|
    ensures x in s ==> |Without(s, x)| < |s|
    ensures forall y :: y in Without(s, x) <==> y in s && y != x
  {
    if s != [] {
      WithoutSpec(s[1..], x);
      assert s == [s[0]] + s[1..];
    }
  }

  /** m distinct candidates all taken means the workbook holds at least m names. */
  lemma {:induction false} TakenCandidatesBound(mode: Suffixing, name: string, existing: seq<string>, m: nat)
    requires forall k :: 1 <= k <= m ==> CandidateBy(mode, name, k) in existing
    ensures m <= |existing|
    decreases m
  {
    if m > 0 {
      var x := CandidateBy(mode, name, m);
      var rest := Without(existing, x);
      WithoutSpec(existing, x);
      forall k | 1 <= k <= m - 1 ensures CandidateBy(mode, name, k) in rest {
        if CandidateBy(mode, name, k) == x {
          CandidateByInjective(mode, name, k, m);
        }
      }
      TakenCandidatesBound(mode, name, rest, m - 1);
    }
  }

  /** u is what the uniquifying loop settles on: the name itself when it is free,
      otherwise the candidate with the smallest counter that is free. */
  predicate IsUniqueChoice(mode: Suffixing, name: string, existing: seq<string>, u: string) {
    && u !in existing
    && (name !in existing ==> u == name)
    && (name in existing ==>
          exists k :: (1 <= k <= |existing| + 1 && u == CandidateBy(mode, name, k) &&
            forall j :: 1 <= j < k ==> CandidateBy(mode, name, j) in existing))
  }

  /** The while loop over wb.SheetNames.includes(uniqueName). It always stops, after
      at most |existing| + 1 candidates. */
  method UniqueSheetName(mode: Suffixing, sheetName: string, existing: seq<string>) returns (uniqueName: string)
    ensures IsUniqueChoice(mode, sheetName, existing, uniqueName)
  {
    uniqueName := sheetName;
    var counter := 1;
    while uniqueName in existing
      invariant 1 <= counter
      invariant counter == 1 ==> uniqueName == sheetName
      invariant counter > 1 ==> sheetName in existing && uniqueName == CandidateBy(mode, sheetName, counter - 1)
      invariant forall k :: 1 <= k < counter - 1 ==> CandidateBy(mode, sheetName, k) in existing
      invariant counter - 2 <= |existing|
      decreases |existing| + 2 - counter
    {
      TakenCandidatesBound(mode, sheetName, existing, counter - 1);
      uniqueName := CandidateBy(mode, sheetName, counter);
      counter := counter + 1;
    }
    if counter > 1 {
      assert forall j :: 1 <= j < counter - 1 ==> CandidateBy(mode, sheetName, j) in existing;
    }
  }

  /** The free name is unique in the choice: two results for the same workbook agree. */
  lemma UniqueChoiceDeterministic(mode: Suffixing, name: string, existing: seq<string>, u: string, v: string)
    requires IsUniqueChoice(mode, name, existing, u) && IsUniqueChoice(mode, name, existing, v)
    ensures u == v
  {
    if name in existing {
      var k :| 1 <= k <= |existing| + 1 && u == CandidateBy(mode, name, k) &&
        forall j :: 1 <= j < k ==> CandidateBy(mode, name, j) in existing;
      var l :| 1 <= l <= |existing| + 1 && v == CandidateBy(mode, name, l) &&
        forall j :: 1 <= j < l ==> CandidateBy(mode, name, j) in existing;
    }
  }

  /** Up to nine collisions the 28-character cut keeps the name within 31 characters. */
  lemma CandidateLength(name: string, k: nat)
    requires |name| <= MAX_SHEET_NAME
    ensures |Candidate(name, k)| == Min(28, |name|) + 2 + |NatToString(k)|
    ensures k < 10 ==> |Candidate(name, k)| <= MAX_SHEET_NAME
  {
  }

  /** The tenth collision breaks the limit: a name of 28 or more characters, taken
      together with its candidates (1) to (9), is given the 32-character
      candidate (10). */
  lemma TenthCollisionTooLong(name: string, existing: seq<string>, u: string)
    requires 28 <= |name| <= MAX_SHEET_NAME
    requires existing == [name] + seq(9, i requires 0 <= i < 9 => Candidate(name, i + 1))
    requires IsUniqueChoice(Cut28, name, existing, u)
    ensures u == Candidate(name, 10) && |u| == 32
  {
    assert existing[0] == name;
    forall j | 1 <= j <= 9 ensures Candidate(name, j) in existing {
      assert existing[j] == Candidate(name, j);
    }
    // Every name already there fits in 31 characters; candidate (10) does not.
    forall j | 0 <= j < |existing| ensures |existing[j]| <= MAX_SHEET_NAME {
      if j > 0 {
        CandidateLength(name, j);
      }
    }
    assert NatToString(10) == "10";
    assert |Candidate(name, 10)| == 32;
    assert CandidateBy(Cut28, name, 10) !in existing;
    var k :| 1 <= k <= |existing| + 1 && u == CandidateBy(Cut28, name, k) &&
      forall j :: 1 <= j < k ==> CandidateBy(Cut28, name, j) in existing;
  }

  /** Numbers with more digits are not smaller. */
  lemma {:induction false} NatToStringLengthMonotone(a: nat, b: nat)
    requires a <= b
    ensures |NatToString(a)| <= |NatToString(b)|
  {
    if a >= 10 {
      NatToStringLengthMonotone(a / 10, b / 10);
    }
  }

  /** Corrected rule: while the counter has at most 29 digits, every candidate fits
      in 31 characters. */
  lemma FittedCandidateLength(name: string, k: nat)
    requires |NatToString(k)| <= MAX_SHEET_NAME - 2
    ensures |FittedCandidate(name, k)| <= MAX_SHEET_NAME
    ensures |name| + 2 + |NatToString(k)| <= MAX_SHEET_NAME ==>
      FittedCandidate(name, k) == name + "(" + NatToString(k) + ")"
  {
  }

  /** Corrected rule: the chosen name of a name within the limit stays within the
      limit (for any workbook with fewer than 10^29 sheets). */
  lemma FittedChoiceLength(name: string, existing: seq<string>, u: string)
    requires |name| <= MAX_SHEET_NAME
    requires |NatToString(|existing| + 1)| <= MAX_SHEET_NAME - 2
    requires IsUniqueChoice(FitTo31, name, existing, u)
    ensures |u| <= MAX_SHEET_NAME
  {
    if name in existing {
      var k :| 1 <= k <= |existing| + 1 && u == CandidateBy(FitTo31, name, k) &&
        forall j :: 1 <= j < k ==> CandidateBy(FitTo31, name, j) in existing;
      NatToStringLengthMonotone(k, |existing| + 1);
      FittedCandidateLength(name, k);
    }
  }

  // ---------------------------------------------------------------------------
  // The workbook being filled

  /** The workbook's list of sheet names, wb.SheetNames. */
  class Workbook {
    var sheetNames: seq<string>

    predicate Valid()
      reads this
    {
      DistinctStrings(sheetNames)
    }

    /** XLSX.utils.book_new() */
    constructor ()
      ensures sheetNames == [] && Valid()
    {
      sheetNames := [];
    }

    /** The naming steps for one sheet, then book_append_sheet, with the suffix
        fitted to 31 characters: the sheet names of the workbook stay pairwise
        distinct and within Excel's limit. */
    method AppendSheet(meta: Metadata) returns (uniqueName: string)
      requires Valid()
      modifies this
      ensures IsUniqueChoice(FitTo31, SheetNameFor(meta), old(sheetNames), uniqueName)
      ensures |NatToString(|old(sheetNames)| + 1)| <= MAX_SHEET_NAME - 2 ==> |uniqueName| <= MAX_SHEET_NAME
      ensures sheetNames == old(sheetNames) + [uniqueName]
      ensures Valid()
    {
      var sheetName := SheetNameFor(meta);
      SheetNameLegal(meta);
      uniqueName := UniqueSheetName(FitTo31, sheetName, sheetNames);
      if |NatToString(|sheetNames| + 1)| <= MAX_SHEET_NAME - 2 {
        FittedChoiceLength(sheetName, sheetNames, uniqueName);
      }
      AppendKeepsDistinct(sheetNames, uniqueName);
      sheetNames := sheetNames + [uniqueName];
    }
  }

  /** Appending a name not yet present keeps the names distinct. */
  lemma AppendKeepsDistinct(names: seq<string>, u: string)
    requires DistinctStrings(names) && u !in names
    ensures DistinctStrings(names + [u])
  {
    var r := names + [u];
    forall i, j | 0 <= i < j < |r| ensures r[i] != r[j] {
      if j == |names| {
        assert r[i] in names;
      }
    }
  }
}
