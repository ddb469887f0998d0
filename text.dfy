/** String helpers the grade engine and the sheet store rely on: JavaScript's
    String.prototype.trim and toLowerCase, decimal rendering of integers (template
    literals such as `S${semester}`) and String.prototype.replace with a string
    pattern, which replaces the first occurrence only. */
module Text {

  /** The characters JavaScript's trim() removes: WhiteSpace and LineTerminator. */
  predicate IsJsWhitespace(c: char) {
    || c == ' ' || c == '\t' || c == '\n' || c == '\r'
    || c == '\U{B}' || c == '\U{C}' || c == '\U{A0}' || c == '\U{1680}'
    || ('\U{2000}' <= c <= '\U{200A}')
    || c == '\U{2028}' || c == '\U{2029}' || c == '\U{202F}' || c == '\U{205F}'
    || c == '\U{3000}' || c == '\U{FEFF}'
  }

  /** Drops leading whitespace. */
  function TrimStart(s: string): string {
    if s != [] && IsJsWhitespace(s[0]) then TrimStart(s[1..]) else s
  }

  /** Drops trailing whitespace. */
  function TrimEnd(s: string): string {
    if s != [] && IsJsWhitespace(s[|s| - 1]) then TrimEnd(s[..|s| - 1]) else s
  }

  /** String.prototype.trim. */
  function Trim(s: string): string {
    TrimEnd(TrimStart(s))
  }

  /** Every character of s is whitespace. */
  predicate AllWhitespace(s: string) {
    forall i :: 0 <= i < |s| ==> IsJsWhitespace(s[i])
  }

  /** TrimStart removes exactly the leading whitespace: what it keeps is a suffix
      that does not start with whitespace, and everything before it is whitespace. */
  lemma {:induction false} TrimStartSpec(s: string)
    ensures |TrimStart(s)| <= |s|
    ensures TrimStart(s) == s[|s| - |TrimStart(s)|..]
    ensures TrimStart(s) == [] || !IsJsWhitespace(TrimStart(s)[0])
    ensures AllWhitespace(s[..|s| - |TrimStart(s)|])
  {
    if s != [] && IsJsWhitespace(s[0]) {
      var t := s[1..];
      TrimStartSpec(t);
      var k := |t| - |TrimStart(t)|;
      assert s[..k + 1] == [s[0]] + t[..k];
    }
  }

  /** TrimEnd removes exactly the trailing whitespace. */
  lemma {:induction false} TrimEndSpec(s: string)
    ensures |TrimEnd(s)| <= |s|
    ensures TrimEnd(s) == s[..|TrimEnd(s)|]
    ensures TrimEnd(s) == [] || !IsJsWhitespace(TrimEnd(s)[|TrimEnd(s)| - 1])
    ensures AllWhitespace(s[|TrimEnd(s)|..])
  {
    if s != [] && IsJsWhitespace(s[|s| - 1]) {
      var t := s[..|s| - 1];
      TrimEndSpec(t);
      var k := |TrimEnd(t)|;
      assert s[k..] == t[k..] + [s[|s| - 1]];
    }
  }

  /** A string trims to '' exactly when every character of it is whitespace. */
  lemma TrimEmptyIff(s: string)
    ensures Trim(s) == [] <==> AllWhitespace(s)
  {
    var t := TrimStart(s);
    TrimStartSpec(s);
    TrimEndSpec(t);
    if Trim(s) != [] {
      var r := Trim(s);
      assert r == t[..|r|];
      assert !IsJsWhitespace(t[0]);
      assert s[|s| - |t|] == t[0];
    } else {
      assert s == s[..|s| - |t|] + t;
    }
  }

  /** The capitals LowerChar lowers: ASCII, Latin-1 (the multiplication sign is not
      a letter) and the two French capitals outside Latin-1, OE and Y with diaeresis. */
  predicate IsKnownCapital(c: char) {
    || 'A' <= c <= 'Z'
    || ('\U{C0}' <= c <= '\U{DE}' && c != '\U{D7}')
    || c == '\U{152}' || c == '\U{178}'
  }

  /** The lower-case form of one character: each known capital becomes its small
      letter (32 code points on in ASCII and Latin-1), every other character stays,
      and the result is never a capital, so lowering twice changes nothing. */
  function LowerChar(c: char): (d: char)
    ensures ('A' <= c <= 'Z' || ('\U{C0}' <= c <= '\U{DE}' && c != '\U{D7}')) ==> d as int == c as int + 32
    ensures c == '\U{152}' ==> d == '\U{153}'
    ensures c == '\U{178}' ==> d == '\U{FF}'
    ensures !IsKnownCapital(c) ==> d == c
    ensures !IsKnownCapital(d)
    ensures IsJsWhitespace(d) ==> d == c
  {
    if 'A' <= c <= 'Z' || ('\U{C0}' <= c <= '\U{DE}' && c != '\U{D7}') then
      (c as int + 32) as char
    else if c == '\U{152}' then '\U{153}'
    else if c == '\U{178}' then '\U{FF}'
    else c
  }

  /** String.prototype.toLowerCase, restricted to the letters LowerChar knows. */
  function ToLower(s: string): string {
    seq(|s|, i requires 0 <= i < |s| => LowerChar(s[i]))
  }

  function DigitChar(d: nat): (c: char)
    requires d < 10
    ensures '0' <= c <= '9'
  {
    ('0' as int + d) as char
  }

  /** The decimal form JavaScript gives a non-negative integer. */
  function NatToString(n: nat): (s: string)
    ensures |s| > 0
    ensures forall i :: 0 <= i < |s| ==> '0' <= s[i] <= '9'
  {
    if n < 10 then [DigitChar(n)] else NatToString(n / 10) + [DigitChar(n % 10)]
  }

  /** The decimal form JavaScript gives an integer. */
  function IntToString(n: int): string {
    if n < 0 then "-" + NatToString(-n) else NatToString(n)
  }

  /** Reads a string of decimal digits back as a number (left to right, as parseInt). */
  function ParseNat(s: string): nat
    requires forall i :: 0 <= i < |s| ==> '0' <= s[i] <= '9'
  {
    if s == [] then 0 else ParseNat(s[..|s| - 1]) * 10 + (s[|s| - 1] as int - '0' as int)
  }

  /** Reading the decimal form back gives the number. */
  lemma {:induction false} ParseNatToString(n: nat)
    ensures ParseNat(NatToString(n)) == n
  {
    var s := NatToString(n);
    if n >= 10 {
      ParseNatToString(n / 10);
      assert s[..|s| - 1] == NatToString(n / 10);
    }
  }

  /** Different numbers have different decimal forms. */
  lemma NatToStringInjective(a: nat, b: nat)
    requires NatToString(a) == NatToString(b)
    ensures a == b
  {
    ParseNatToString(a);
    ParseNatToString(b);
  }

  /** Different integers have different decimal forms. */
  lemma IntToStringInjective(a: int, b: int)
    requires IntToString(a) == IntToString(b)
    ensures a == b
  {
    assert IntToString(a)[0] == '-' <==> a < 0;
    assert IntToString(b)[0] == '-' <==> b < 0;
    if a < 0 {
      assert NatToString(-a) == IntToString(a)[1..] == IntToString(b)[1..] == NatToString(-b);
      NatToStringInjective(-a, -b);
    } else {
      NatToStringInjective(a, b);
    }
  }

  /** Splitting at the first occurrence of a separator: when neither head holds
      the separator, equal joins have equal heads and equal tails. */
  lemma SplitAtSeparator(a1: string, b1: string, a2: string, b2: string, sep: char)
    requires sep !in a1 && sep !in a2
    requires a1 + [sep] + b1 == a2 + [sep] + b2
    ensures a1 == a2 && b1 == b2
  {
    var s := a1 + [sep] + b1;
    assert forall i :: 0 <= i < |a1| ==> s[i] == a1[i] != sep;
    assert forall i :: 0 <= i < |a2| ==> s[i] == a2[i] != sep;
    assert s[|a1|] == sep && s[|a2|] == sep;
    assert a1 == s[..|a1|] == a2;
    assert b1 == s[|a1| + 1..] == b2;
  }

  // ---------------------------------------------------------------------------
  // Ignoring case

  /** Two characters that are equal or one of which is the other lowered. */
  predicate CaseVariantChars(a: char, b: char) {
    a == b || a == LowerChar(b) || LowerChar(a) == b
  }

  /** s and t differ at most in the case of letters LowerChar lowers. */
  predicate CaseVariants(s: string, t: string) {
    |s| == |t| && forall i :: 0 <= i < |s| ==> CaseVariantChars(s[i], t[i])
  }

  /** Case variants lower to the same character, and are whitespace together. */
  lemma CaseVariantLower(a: char, b: char)
    requires CaseVariantChars(a, b)
    ensures LowerChar(a) == LowerChar(b)
    ensures IsJsWhitespace(a) <==> IsJsWhitespace(b)
  {
  }

  /** Whitespace at the same positions. */
  predicate SameWhitespace(s: string, t: string) {
    |s| == |t| && forall i :: 0 <= i < |s| ==> (IsJsWhitespace(s[i]) <==> IsJsWhitespace(t[i]))
  }

  lemma {:induction false} TrimStartAligned(s: string, t: string)
    requires SameWhitespace(s, t)
    ensures |TrimStart(s)| == |TrimStart(t)|
  {
    if s != [] && IsJsWhitespace(s[0]) {
      assert SameWhitespace(s[1..], t[1..]) by {
        forall i | 0 <= i < |s| - 1 ensures IsJsWhitespace(s[1..][i]) <==> IsJsWhitespace(t[1..][i]) {
          assert s[1..][i] == s[i + 1] && t[1..][i] == t[i + 1];
        }
      }
      TrimStartAligned(s[1..], t[1..]);
    }
  }

  lemma {:induction false} TrimEndAligned(s: string, t: string)
    requires SameWhitespace(s, t)
    ensures |TrimEnd(s)| == |TrimEnd(t)|
  {
    if s != [] && IsJsWhitespace(s[|s| - 1]) {
      assert SameWhitespace(s[..|s| - 1], t[..|t| - 1]);
      TrimEndAligned(s[..|s| - 1], t[..|t| - 1]);
    }
  }

  /** With whitespace at the same positions, trimStart drops the same number of
      characters from both, and what is left again has whitespace in the same places. */
  lemma TrimStartWindow(s: string, t: string) returns (a: nat)
    requires SameWhitespace(s, t)
    ensures a <= |s| && TrimStart(s) == s[a..] && TrimStart(t) == t[a..]
    ensures SameWhitespace(TrimStart(s), TrimStart(t))
  {
    TrimStartAligned(s, t);
    TrimStartSpec(s);
    TrimStartSpec(t);
    a := |s| - |TrimStart(s)|;
    forall i | 0 <= i < |s| - a
      ensures IsJsWhitespace(TrimStart(s)[i]) <==> IsJsWhitespace(TrimStart(t)[i])
    {
      assert TrimStart(s)[i] == s[a + i] && TrimStart(t)[i] == t[a + i];
    }
  }

  /** With whitespace at the same positions, trim keeps the same window of both. */
  lemma TrimWindowAligned(s: string, t: string) returns (a: nat, b: nat)
    requires SameWhitespace(s, t)
    ensures a <= b <= |s| && Trim(s) == s[a..b] && Trim(t) == t[a..b]
  {
    a := TrimStartWindow(s, t);
    var s', t' := TrimStart(s), TrimStart(t);
    TrimEndAligned(s', t');
    TrimEndSpec(s');
    TrimEndSpec(t');
    b := a + |TrimEnd(s')|;
    assert s[a..b] == s'[..b - a];
    assert t[a..b] == t'[..b - a];
  }

  /** Case variants lower alike character by character, with whitespace in the
      same places. */
  lemma CaseVariantsLower(s: string, t: string)
    requires CaseVariants(s, t)
    ensures SameWhitespace(s, t)
    ensures forall i :: 0 <= i < |s| ==> LowerChar(s[i]) == LowerChar(t[i])
  {
    forall i | 0 <= i < |s|
      ensures LowerChar(s[i]) == LowerChar(t[i]) && (IsJsWhitespace(s[i]) <==> IsJsWhitespace(t[i]))
    {
      CaseVariantLower(s[i], t[i]);
    }
  }

  /** Trimming then lower-casing ignores case: strings that differ only in the case
      of the letters LowerChar knows have the same trimmed lower-case form. */
  lemma TrimLowerIgnoresCase(s: string, t: string)
    requires CaseVariants(s, t)
    ensures ToLower(Trim(s)) == ToLower(Trim(t))
  {
    CaseVariantsLower(s, t);
    var a, b := TrimWindowAligned(s, t);
    forall i | 0 <= i < b - a ensures LowerChar(Trim(s)[i]) == LowerChar(Trim(t)[i]) {
      assert Trim(s)[i] == s[a + i] && Trim(t)[i] == t[a + i];
    }
  }


  /** True when pat occurs in s starting at index i. */
  predicate OccursAt(s: string, pat: string, i: nat) {
    i + |pat| <= |s| && s[i..i + |pat|] == pat
  }

  /** String.prototype.replace with a non-empty string pattern: only the first
      occurrence of pat is replaced. */
  function ReplaceFirst(s: string, pat: string, rep: string): (r: string)
    requires |pat| > 0
    ensures (forall i :: 0 <= i <= |s| ==> !OccursAt(s, pat, i)) ==> r == s
  {
    if |s| < |pat| then s
    else if s[..|pat|] == pat then
      assert OccursAt(s, pat, 0);
      rep + s[|pat|..]
    else
      assert forall i :: 0 <= i <= |s| - 1 ==> OccursAt(s[1..], pat, i) ==> OccursAt(s, pat, i + 1);
      [s[0]] + ReplaceFirst(s[1..], pat, rep)
  }

  /** Without an occurrence at the front, replace keeps the first character and
      works on the rest. */
  lemma ReplaceFirstStep(s: string, pat: string, rep: string)
    requires |pat| > 0 && |s| >= |pat| && !OccursAt(s, pat, 0)
    ensures ReplaceFirst(s, pat, rep) == [s[0]] + ReplaceFirst(s[1..], pat, rep)
  {
    assert s[..|pat|] != pat;
  }

  /** An occurrence at the front is the one replaced. */
  lemma ReplaceFirstFront(pat: string, rep: string, y: string)
    requires |pat| > 0
    ensures ReplaceFirst(pat + y, pat, rep) == rep + y
  {
    var s := pat + y;
    assert s[..|pat|] == pat;
    assert s[|pat|..] == y;
  }

  /** Dropping the first character of x keeps "no occurrence inside x". */
  lemma NoOccurrenceShift(x: string, pat: string, y: string)
    requires x != []
    requires forall i :: 0 <= i < |x| ==> !OccursAt(x + pat + y, pat, i)
    ensures forall i :: 0 <= i < |x| - 1 ==> !OccursAt(x[1..] + pat + y, pat, i)
  {
    ConsSplit(x, pat, y);
    forall i | 0 <= i < |x| - 1 ensures !OccursAt(x[1..] + pat + y, pat, i) {
      assert !OccursAt(x + pat + y, pat, i + 1);
      OccursAtShift(x[0], x[1..] + pat + y, pat, i);
    }
  }

  /** An occurrence at i + 1 behind a first character c is one at i in the rest. */
  lemma OccursAtShift(c: char, t: string, pat: string, i: nat)
    ensures OccursAt([c] + t, pat, i + 1) <==> OccursAt(t, pat, i)
  {
    if i + |pat| <= |t| {
      assert ([c] + t)[i + 1..i + 1 + |pat|] == t[i..i + |pat|];
    }
  }

  /** One step of the induction: with no occurrence at the front, replacing in
      x + pat + y is x[0] followed by replacing in the rest. */
  lemma ReplaceFirstCons(x: string, pat: string, rep: string, y: string)
    requires |pat| > 0 && x != []
    requires !OccursAt(x + pat + y, pat, 0)
    requires ReplaceFirst(x[1..] + pat + y, pat, rep) == x[1..] + rep + y
    ensures ReplaceFirst(x + pat + y, pat, rep) == x + rep + y
  {
    ConsSplit(x, pat, y);
    ConsSplit(x, rep, y);
    ReplaceFirstHead(x[0], x[1..] + pat + y, pat, rep);
  }

  /** Peeling the first character off x + m + y. */
  lemma ConsSplit(x: string, m: string, y: string)
    requires x != []
    ensures x + m + y == [x[0]] + (x[1..] + m + y)
  {
    assert x == [x[0]] + x[1..];
  }

  /** ReplaceFirstStep for a string written as its first character and the rest. */
  lemma ReplaceFirstHead(c: char, t: string, pat: string, rep: string)
    requires |pat| > 0 && |t| + 1 >= |pat| && !OccursAt([c] + t, pat, 0)
    ensures ReplaceFirst([c] + t, pat, rep) == [c] + ReplaceFirst(t, pat, rep)
  {
    ReplaceFirstStep([c] + t, pat, rep);
    assert ([c] + t)[1..] == t;
  }

  /** When the first occurrence of pat in x + pat + y is the one after x, the
      replacement happens there. */
  lemma {:induction false} ReplaceFirstAt(x: string, pat: string, rep: string, y: string)
    requires |pat| > 0
    requires forall i :: 0 <= i < |x| ==> !OccursAt(x + pat + y, pat, i)
    ensures ReplaceFirst(x + pat + y, pat, rep) == x + rep + y
  {
    if x == [] {
      assert x + pat + y == pat + y;
      ReplaceFirstFront(pat, rep, y);
    } else {
      assert !OccursAt(x + pat + y, pat, 0);
      NoOccurrenceShift(x, pat, y);
      ReplaceFirstAt(x[1..], pat, rep, y);
      ReplaceFirstCons(x, pat, rep, y);
    }
  }

}
