/** Decimal text: printf's %d and %lu, and the strtol family that reads it back. */
module Decimal {
  import opened Basics

  const ULONG_MAX := 0xFFFF_FFFF_FFFF_FFFF

  function DigitChar(d: nat): char
    requires d < 10
  {
    '0' + d as char
  }

  predicate IsDigit(c: char) { '0' <= c <= '9' }

  function DigitValue(c: char): nat
    requires IsDigit(c)
  {
    (c - '0') as nat
  }

  /** printf ("%lu", n) */
  function ShowNat(n: nat): (s: string)
    ensures s != [] && forall i :: 0 <= i < |s| ==> IsDigit(s[i])
  {
    if n < 10 then [DigitChar(n)] else ShowNat(n / 10) + [DigitChar(n % 10)]
  }

  /** printf ("%d", i) */
  function ShowInt(i: int): (s: string)
    ensures s != [] && (s[0] == '-' || IsDigit(s[0]))
  {
    if i < 0 then "-" + ShowNat(-i) else ShowNat(i)
  }

  /** The length of the run of digits at the front of s. */
  function DigitRun(s: string): (n: nat)
    ensures n <= |s|
    ensures forall i :: 0 <= i < n ==> IsDigit(s[i])
    ensures n < |s| ==> !IsDigit(s[n])
  {
    if s == "" || !IsDigit(s[0]) then 0 else 1 + DigitRun(s[1..])
  }

  function NatOf(digits: string): nat
    requires forall i :: 0 <= i < |digits| ==> IsDigit(digits[i])
  {
    if digits == "" then 0
    else NatOf(digits[..|digits| - 1]) * 10 + DigitValue(digits[|digits| - 1])
  }

  function SkipSpace(s: string): string {
    if s != "" && IsSpace(s[0]) then SkipSpace(s[1..]) else s
  }

  /** The value of the digits at the front of s, if there are any. */
  function ScanDigits(s: string): Option<nat> {
    var n := DigitRun(s);
    if n == 0 then None else Some(NatOf(s[..n]))
  }

  /** strtol (s, &end, 10) before any range check; None is `end == s', no number at all.
      Text after the digits is ignored. */
  function ScanInt(s: string): Option<int> {
    var t := SkipSpace(s);
    var signed := t != "" && (t[0] == '-' || t[0] == '+');
    match ScanDigits(if signed then t[1..] else t)
    case None => None
    case Some(n) => if signed && t[0] == '-' then Some(-(n as int)) else Some(n)
  }

  /** gconf_string_to_gulong (str), then the assignment to a GTime. */
  function ReadTime(s: string): int32 {
    match ScanInt(s)
    case None => 0
    case Some(i) => if i > ULONG_MAX || -i > ULONG_MAX then 0 else Wrap32(i)
  }

  /** printf ("%lu", (unsigned long) mod_time) */
  function ShowTime(t: int32): string { ShowNat(WidenToULong(t)) }

  lemma {:induction false} NatOfShowNat(n: nat)
    ensures NatOf(ShowNat(n)) == n
  {
    if n >= 10 {
      NatOfShowNat(n / 10);
      var s := ShowNat(n);
      assert s[..|s| - 1] == ShowNat(n / 10);
    } else {
      var s := ShowNat(n);
      assert s[..|s| - 1] == "";
    }
  }

  lemma {:induction false} DigitRunAll(s: string)
    requires forall i :: 0 <= i < |s| ==> IsDigit(s[i])
    ensures DigitRun(s) == |s|
  {
    if s != "" { DigitRunAll(s[1..]); }
  }

  lemma ScanShowNat(n: nat)
    ensures ScanDigits(ShowNat(n)) == Some(n)
  {
    var s := ShowNat(n);
    DigitRunAll(s);
    assert s[..|s|] == s;
    NatOfShowNat(n);
  }

  lemma DigitsAreNotSigns(s: string)
    requires s != "" && IsDigit(s[0])
    ensures SkipSpace(s) == s && s[0] != '-' && s[0] != '+'
  {
  }

  lemma ScanNegative(n: nat)
    ensures ScanInt("-" + ShowNat(n)) == Some(-(n as int))
  {
    var s := "-" + ShowNat(n);
    assert s[0] == '-' && SkipSpace(s) == s;
    assert s[1..] == ShowNat(n);
    ScanShowNat(n);
  }

  /** Reading a printed integer gives it back. */
  lemma ScanShowInt(i: int)
    ensures ScanInt(ShowInt(i)) == Some(i)
  {
    if i < 0 {
      ScanNegative(-i);
    } else {
      ScanShowNat(i);
      DigitsAreNotSigns(ShowNat(i));
    }
  }

  lemma ReadShowTime(t: int32)
    ensures ReadTime(ShowTime(t)) == t
  {
    ScanShowInt(WidenToULong(t));
    WrapUndoesWiden(t);
  }

  lemma {:induction false} NoLeadingZero(n: nat)
    ensures ShowNat(n)[0] == '0' ==> n == 0 && ShowNat(n) == "0"
  {
    if n >= 10 { NoLeadingZero(n / 10); }
  }

  /** A printed integer: a minus sign if it is negative, then the digits of its magnitude, the first of
      which is zero for zero alone. */
  lemma DecimalForm(i: int)
    ensures var digits := if i < 0 then ShowInt(i)[1..] else ShowInt(i);
      && (i < 0 <==> ShowInt(i)[0] == '-')
      && digits != "" && (forall k :: 0 <= k < |digits| ==> IsDigit(digits[k]))
      && NatOf(digits) == (if i < 0 then -i else i)
      && (digits[0] == '0' ==> digits == "0")
  {
    var n := if i < 0 then -i else i;
    NatOfShowNat(n);
    NoLeadingZero(n);
    if i < 0 { assert ShowInt(i)[1..] == ShowNat(n); }
  }
}
