/**
 * The few string operations the ledger relies on: Python's `str.strip`, `str.upper`,
 * `str.lower`, the substring test `t in s`, decimal formatting of integers and the
 * zero-padded format `f"{n:05d}"`. Only ASCII is modelled (see README).
 */
module Text {

  /** Python's `str.isspace` on ASCII: space, \t \n \v \f \r and the separators 0x1C-0x1F. */
  predicate IsSpace(c: char) {
    c == ' ' || ('\t' <= c <= '\r') || ('\U{1C}' <= c <= '\U{1F}')
  }

  /** Drops leading whitespace. */
  function TrimLeft(s: string): (r: string)
    ensures |r| <= |s| && r == s[|s| - |r|..]
    ensures forall k :: 0 <= k < |s| - |r| ==> IsSpace(s[k])
    ensures r == [] || !IsSpace(r[0])
  {
    if s != [] && IsSpace(s[0]) then TrimLeft(s[1..]) else s
  }

  /** Drops trailing whitespace. */
  function TrimRight(s: string): (r: string)
    ensures |r| <= |s| && r == s[..|r|]
    ensures forall k :: |r| <= k < |s| ==> IsSpace(s[k])
    ensures r == [] || !IsSpace(r[|r| - 1])
  {
    if s != [] && IsSpace(s[|s| - 1]) then TrimRight(s[..|s| - 1]) else s
  }

  /** Python's `s.strip()`. */
  function Strip(s: string): string {
    TrimRight(TrimLeft(s))
  }

  /**
   * What `strip` promises: the result is the slice `s[i..j]`, everything cut off is
   * whitespace, and the result neither starts nor ends with whitespace.
   */
  lemma StripSlice(s: string) returns (i: nat, j: nat)
    ensures i <= j <= |s| && Strip(s) == s[i..j]
    ensures forall k :: 0 <= k < i ==> IsSpace(s[k])
    ensures forall k :: j <= k < |s| ==> IsSpace(s[k])
    ensures i < j ==> !IsSpace(s[i]) && !IsSpace(s[j - 1])
  {
    var l := TrimLeft(s);
    i := |s| - |l|;
    j := TrimRightSlice(s, i, l);
  }

  /** The second half of `StripSlice`: trimming the right of the suffix `l == s[i..]`. */
  lemma TrimRightSlice(s: string, i: nat, l: string) returns (j: nat)
    requires i <= |s| && l == s[i..]
    ensures i <= j <= |s| && TrimRight(l) == s[i..j]
    ensures forall k :: j <= k < |s| ==> IsSpace(s[k])
    ensures i < j ==> !IsSpace(s[j - 1])
  {
    var r := TrimRight(l);
    j := i + |r|;
    assert l[..|r|] == s[i..j];
    forall k | j <= k < |s|
      ensures IsSpace(s[k])
    {
      assert s[k] == l[k - i];
    }
  }

  /** A string strips to nothing exactly when it is all whitespace. */
  lemma StripEmpty(s: string)
    ensures Strip(s) == [] <==> forall k :: 0 <= k < |s| ==> IsSpace(s[k])
  {
    var i, j := StripSlice(s);
    if Strip(s) != [] {
      assert !IsSpace(s[i]);
    }
  }

  function UpperChar(c: char): char {
    if 'a' <= c <= 'z' then (c as int - 32) as char else c
  }

  function LowerChar(c: char): char {
    if 'A' <= c <= 'Z' then (c as int + 32) as char else c
  }

  /** Python's `s.upper()` on ASCII letters. */
  function Upper(s: string): (r: string)
    ensures |r| == |s| && forall k :: 0 <= k < |s| ==> r[k] == UpperChar(s[k])
  {
    seq(|s|, k requires 0 <= k < |s| => UpperChar(s[k]))
  }

  /** Python's `s.lower()` on ASCII letters. */
  function Lower(s: string): (r: string)
    ensures |r| == |s| && forall k :: 0 <= k < |s| ==> r[k] == LowerChar(s[k])
  {
    seq(|s|, k requires 0 <= k < |s| => LowerChar(s[k]))
  }

  /** Python's `s[:n]`. */
  function Take(s: string, n: nat): (r: string)
    ensures |r| == if |s| < n then |s| else n
    ensures r <= s
  {
    if |s| < n then s else s[..n]
  }

  /** Python's substring test `t in s`. */
  predicate Contains(s: string, t: string) {
    t <= s || (s != [] && Contains(s[1..], t))
  }

  /** An occurrence of `t` at position `i` of `s` makes `t in s` true. */
  lemma {:induction false} ContainsAt(s: string, t: string, i: nat)
    requires i + |t| <= |s| && s[i..i + |t|] == t
    ensures Contains(s, t)
  {
    if i == 0 {
      assert t == s[..|t|];
    } else {
      assert s[1..][i - 1..i - 1 + |t|] == s[i..i + |t|];
      ContainsAt(s[1..], t, i - 1);
    }
  }

  /** Conversely, `t in s` gives a position where `t` occurs. */
  lemma {:induction false} ContainsWitness(s: string, t: string) returns (i: nat)
    requires Contains(s, t)
    ensures i + |t| <= |s| && s[i..i + |t|] == t
  {
    if t <= s {
      i := 0;
    } else {
      var i' := ContainsWitness(s[1..], t);
      i := i' + 1;
      assert s[i..i + |t|] == s[1..][i'..i' + |t|];
    }
  }

  predicate IsDigit(c: char) {
    '0' <= c <= '9'
  }

  function DigitChar(d: nat): (c: char)
    requires d < 10
    ensures IsDigit(c) && c as int - '0' as int == d
  {
    ('0' as int + d) as char
  }

  function DigitValue(c: char): nat {
    if IsDigit(c) then c as int - '0' as int else 0
  }

  /** Decimal digits of `n` without leading zeros (Python's `str(n)` for `n >= 0`). */
  function NatToString(n: nat): (r: string)
    ensures |r| >= 1 && forall k :: 0 <= k < |r| ==> IsDigit(r[k])
    ensures r[0] == '0' ==> n == 0
    decreases n
  {
    if n < 10 then [DigitChar(n)] else NatToString(n / 10) + [DigitChar(n % 10)]
  }

  /** Python's `str(i)`: a minus sign in front of the digits of a negative number. */
  function IntToString(i: int): string {
    if i < 0 then "-" + NatToString(-i) else NatToString(i)
  }

  /** Reads a string of decimal digits back as a number. */
  function ParseNat(s: string): nat {
    if s == [] then 0 else ParseNat(s[..|s| - 1]) * 10 + DigitValue(s[|s| - 1])
  }

  /** Reading the decimal form of `n` gives back `n`. */
  lemma {:induction false} ParseNatToString(n: nat)
    ensures ParseNat(NatToString(n)) == n
  {
    if n >= 10 {
      var s := NatToString(n / 10);
      ParseNatToString(n / 10);
      assert (s + [DigitChar(n % 10)])[..|s|] == s;
    }
  }

  function Zeros(k: nat): (r: string)
    ensures |r| == k && forall j :: 0 <= j < k ==> r[j] == '0'
  {
    seq(k, _ => '0')
  }

  /** Python's `f"{n:05d}"` for `n >= 0`: the decimal digits, left-padded with zeros to width 5. */
  function ZeroPad5(n: nat): (r: string)
    ensures |r| >= 5 && forall k :: 0 <= k < |r| ==> IsDigit(r[k])
    ensures |r| > 5 ==> r[0] != '0'
  {
    var d := NatToString(n);
    assert NatToString(0) == "0";
    (if |d| < 5 then Zeros(5 - |d|) else []) + d
  }

  /** Leading zeros do not change the number a digit string denotes. */
  lemma {:induction false} ParseLeadingZeros(k: nat, s: string)
    ensures ParseNat(Zeros(k) + s) == ParseNat(s)
    decreases |s|, k
  {
    if s == [] {
      assert Zeros(k) + s == Zeros(k);
      if k > 0 {
        assert Zeros(k)[..k - 1] == Zeros(k - 1) + [];
        ParseLeadingZeros(k - 1, []);
      }
    } else {
      assert (Zeros(k) + s)[..|Zeros(k) + s| - 1] == Zeros(k) + s[..|s| - 1];
      ParseLeadingZeros(k, s[..|s| - 1]);
    }
  }

  /** The padded form reads back as `n`. */
  lemma ParseZeroPad5(n: nat)
    ensures ParseNat(ZeroPad5(n)) == n
  {
    var d := NatToString(n);
    ParseNatToString(n);
    if |d| < 5 {
      ParseLeadingZeros(5 - |d|, d);
    } else {
      assert ZeroPad5(n) == d;
    }
  }

  /** Distinct numbers give distinct padded forms. */
  lemma ZeroPad5Injective(a: nat, b: nat)
    ensures ZeroPad5(a) == ZeroPad5(b) ==> a == b
  {
    ParseZeroPad5(a);
    ParseZeroPad5(b);
  }

  /** Python's `sep.join(parts)`. */
  function Join(parts: seq<string>, sep: string): string
  {
    if parts == [] then ""
    else if |parts| == 1 then parts[0]
    else Join(parts[..|parts| - 1], sep) + sep + parts[|parts| - 1]
  }
}
