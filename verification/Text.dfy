/** The string operations of Python that the modelled code relies on. */
module Text {
  // ----- Searching -----

  /** `pat` occurs in `s` at position `i`. */
  predicate At(s: string, i: int, pat: string) {
    0 <= i && i + |pat| <= |s| && s[i..i + |pat|] == pat
  }

  /** `s.find(pat, lo, hi)`: the first occurrence inside `s[lo..hi]`, or -1. */
  function Find(s: string, pat: string, lo: nat, hi: nat): (r: int)
    requires hi <= |s|
    ensures r == -1 || (lo <= r && r + |pat| <= hi)
    decreases hi - lo
  {
    if lo + |pat| > hi then -1
    else if s[lo..lo + |pat|] == pat then lo
    else Find(s, pat, lo + 1, hi)
  }

  /** What is found is an occurrence, and none lies before it. */
  lemma {:induction false} FindFirst(s: string, pat: string, lo: nat, hi: nat)
    requires hi <= |s|
    ensures var r := Find(s, pat, lo, hi);
            && (r >= 0 ==> At(s, r, pat))
            && forall i :: lo <= i && i + |pat| <= hi && (r < 0 || i < r) ==> !At(s, i, pat)
    decreases hi - lo
  {
    if lo + |pat| <= hi && s[lo..lo + |pat|] != pat {
      FindFirst(s, pat, lo + 1, hi);
      assert !At(s, lo, pat);
    }
  }

  lemma SliceSlice(s: string, lo: nat, hi: nat, a: nat, b: nat)
    requires lo <= hi <= |s| && a <= b <= hi - lo
    ensures s[lo..hi][a..b] == s[lo + a..lo + b]
  {
    var t := s[lo..hi];
    var u, w := t[a..b], s[lo + a..lo + b];
    forall j | 0 <= j < b - a
      ensures u[j] == w[j]
    {
      assert u[j] == t[a + j] == s[lo + a + j];
    }
    assert u == w;
  }

  lemma SliceEnds(s: string, lo: nat, hi: nat, k: nat)
    requires lo <= hi <= |s| && k <= hi - lo
    ensures s[lo..hi][..k] == s[lo..lo + k]
    ensures s[lo..hi][k..] == s[lo + k..hi]
  {
    SliceSlice(s, lo, hi, 0, k);
    SliceSlice(s, lo, hi, k, hi - lo);
    var t := s[lo..hi];
    assert t[0..k] == t[..k] && t[k..hi - lo] == t[k..];
  }

  lemma AtSlice(s: string, pat: string, lo: nat, hi: nat, i: nat)
    requires lo <= i && i + |pat| <= hi <= |s|
    ensures At(s, i, pat) <==> At(s[lo..hi], i - lo, pat)
  {
    SliceSlice(s, lo, hi, i - lo, i - lo + |pat|);
  }

  /** Searching a range is searching the slice. */
  lemma FindSlice(s: string, pat: string, lo: nat, hi: nat)
    requires lo <= hi <= |s|
    ensures var k := Find(s[lo..hi], pat, 0, hi - lo);
            Find(s, pat, lo, hi) == if k < 0 then -1 else lo + k
  {
    hide At;
    hide Find;
    var t := s[lo..hi];
    FindFirst(t, pat, 0, hi - lo);
    FindFirst(s, pat, lo, hi);
    var k, r := Find(t, pat, 0, hi - lo), Find(s, pat, lo, hi);
    if r >= 0 {
      AtSlice(s, pat, lo, hi, r);
    }
    if k >= 0 {
      AtSlice(s, pat, lo, hi, lo + k);
    }
  }

  lemma JoinThree(a: string, b: string, c: string)
    ensures a + (b + c) == a + b + c
  {
  }

  predicate Contains(s: string, pat: string) {
    Find(s, pat, 0, |s|) >= 0
  }

  lemma ContainsIff(s: string, pat: string)
    ensures Contains(s, pat) <==> exists i :: At(s, i, pat)
  {
    FindFirst(s, pat, 0, |s|);
  }

  /** `s.replace(pat, rep)`: left to right, without rescanning what was put in. */
  function Replace(s: string, pat: string, rep: string): string
    requires pat != []
    decreases |s|
  {
    if |s| < |pat| then s
    else if s[..|pat|] == pat then rep + Replace(s[|pat|..], pat, rep)
    else [s[0]] + Replace(s[1..], pat, rep)
  }

  // ----- Trimming and case -----

  predicate IsSpace(c: char) {
    c == ' ' || c == '\t' || c == '\n' || c == '\r' || c == 11 as char || c == 12 as char
  }

  function StripLeft(s: string): string {
    if s != [] && IsSpace(s[0]) then StripLeft(s[1..]) else s
  }

  function StripRight(s: string): string {
    if s != [] && IsSpace(s[|s| - 1]) then StripRight(s[..|s| - 1]) else s
  }

  /** `s.strip()` on ASCII text. */
  function Strip(s: string): string {
    StripRight(StripLeft(s))
  }

  predicate Trimmed(s: string) {
    s != [] ==> !IsSpace(s[0]) && !IsSpace(s[|s| - 1])
  }

  lemma StripPadded(s: string)
    requires Trimmed(s)
    ensures Strip(s) == s && Strip([' '] + s) == s
  {
    assert ([' '] + s)[1..] == s;
    assert StripLeft([' '] + s) == StripLeft(s);
  }

  function LowerChar(c: char): char {
    if 'A' <= c <= 'Z' then c - 'A' + 'a' else c
  }

  function Lower(s: string): (r: string)
    ensures |r| == |s| && forall i :: 0 <= i < |s| ==> r[i] == LowerChar(s[i])
  {
    seq(|s|, i requires 0 <= i < |s| => LowerChar(s[i]))
  }

  /** `s.upper()` on ASCII text. */
  function Upper(s: string): (r: string)
    ensures |r| == |s|
  {
    seq(|s|, i requires 0 <= i < |s| => if 'a' <= s[i] <= 'z' then s[i] - 'a' + 'A' else s[i])
  }

  /** The letters a to z become A to Z, 32 code points down; nothing else changes. */
  lemma UpperLetters(s: string, i: nat)
    requires i < |s|
    ensures 97 <= s[i] as int <= 122 ==> Upper(s)[i] as int == s[i] as int - 32
    ensures !(97 <= s[i] as int <= 122) ==> Upper(s)[i] == s[i]
  {
  }

  /** Case folding: the letters A to Z become a to z, 32 code points up; nothing else changes. */
  lemma LowerLetters(s: string, i: nat)
    requires i < |s|
    ensures 65 <= s[i] as int <= 90 ==> Lower(s)[i] as int == s[i] as int + 32
    ensures !(65 <= s[i] as int <= 90) ==> Lower(s)[i] == s[i]
  {
  }

  /** Trimming takes blanks, and only blanks, from both ends, as many as there are. */
  lemma {:induction false} StripSpec(s: string) returns (front: string, back: string)
    ensures s == front + Strip(s) + back
    ensures forall c <- front + back :: c as int in {9, 10, 11, 12, 13, 32}
    ensures var t := Strip(s);
            t != [] ==> t[0] as int !in {9, 10, 11, 12, 13, 32} && t[|t| - 1] as int !in {9, 10, 11, 12, 13, 32}
  {
    front := StripLeftSpec(s);
    back := StripRightSpec(StripLeft(s));
  }

  lemma {:induction false} StripLeftSpec(s: string) returns (front: string)
    ensures s == front + StripLeft(s) && forall c <- front :: c as int in {9, 10, 11, 12, 13, 32}
    ensures StripLeft(s) != [] ==> StripLeft(s)[0] as int !in {9, 10, 11, 12, 13, 32}
  {
    if s != [] && IsSpace(s[0]) {
      front := StripLeftSpec(s[1..]);
      front := [s[0]] + front;
    } else {
      front := [];
    }
  }

  lemma {:induction false} StripRightSpec(s: string) returns (back: string)
    ensures s == StripRight(s) + back && forall c <- back :: c as int in {9, 10, 11, 12, 13, 32}
    ensures StripRight(s) != [] ==>
              var n := |StripRight(s)| - 1;
              StripRight(s)[n] as int !in {9, 10, 11, 12, 13, 32} && StripRight(s)[0] == s[0]
  {
    if s != [] && IsSpace(s[|s| - 1]) {
      back := StripRightSpec(s[..|s| - 1]);
      back := back + [s[|s| - 1]];
    } else {
      back := [];
    }
  }

  /** `s.rstrip("/")`. */
  function RStripSlash(s: string): (r: string)
    ensures r <= s
    ensures r != [] ==> r[|r| - 1] != '/'
  {
    if s != [] && s[|s| - 1] == '/' then RStripSlash(s[..|s| - 1]) else s
  }

  // ----- Decimal numbers -----

  predicate IsDigit(c: char) { '0' <= c <= '9' }

  predicate AllDigits(s: string) { forall c <- s :: IsDigit(c) }

  function DigitChar(d: nat): (c: char)
    requires d < 10
    ensures IsDigit(c) && DigitValue(c) == d
  {
    '0' + d as char
  }

  function DigitValue(c: char): nat
    requires IsDigit(c)
  {
    (c - '0') as nat
  }

  /** `str(n)`. */
  function Decimal(n: nat): (s: string)
    ensures s != [] && AllDigits(s)
  {
    if n < 10 then [DigitChar(n)] else Decimal(n / 10) + [DigitChar(n % 10)]
  }

  /** `int(s)` for a string of digits. */
  function ParseDecimal(s: string): nat
    requires AllDigits(s)
  {
    if s == [] then 0 else ParseDecimal(s[..|s| - 1]) * 10 + DigitValue(s[|s| - 1])
  }

  lemma {:induction false} DecimalRoundTrip(n: nat)
    ensures ParseDecimal(Decimal(n)) == n
  {
    var s := Decimal(n);
    if n < 10 {
      assert s[..|s| - 1] == [];
    } else {
      assert s[..|s| - 1] == Decimal(n / 10);
      DecimalRoundTrip(n / 10);
    }
  }
}
