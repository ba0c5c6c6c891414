/** The decimal printer of kernel/logger.c with strlen and strrev of lib/string. */
module Decimal {
  import opened Machine

  const ZERO: Byte := 48   // '0'
  const BUFFER: nat := 25

  // What a numeral is: '0' to '9' are 48 to 57 in ASCII, whatever constants the printer uses.

  predicate IsDigit(c: Byte) {
    48 <= c <= 57
  }

  predicate Digits(s: seq<Byte>) {
    forall i :: 0 <= i < |s| ==> IsDigit(s[i])
  }

  /** The number that a numeral denotes, most significant digit first. */
  function Value(s: seq<Byte>): nat
    requires Digits(s)
  {
    if s == [] then 0 else 10 * Value(s[..|s| - 1]) + (s[|s| - 1] - 48) as nat
  }

  /** A numeral as people write it: at least one digit, and no leading zero unless it is the only digit. */
  predicate Canonical(s: seq<Byte>) {
    s != [] && Digits(s) && (|s| > 1 ==> s[0] != 48)
  }

  function Pow10(k: nat): (p: nat)
    ensures p > 0
  {
    if k == 0 then 1 else 10 * Pow10(k - 1)
  }

  function Reversed(s: seq<Byte>): (r: seq<Byte>)
    ensures |r| == |s| && forall i :: 0 <= i < |s| ==> r[i] == s[|s| - 1 - i]
  {
    seq(|s|, i requires 0 <= i < |s| => s[|s| - 1 - i])
  }

  lemma {:induction false} PrependDigit(d: Byte, s: seq<Byte>)
    requires IsDigit(d) && Digits(s)
    ensures Digits([d] + s) && Value([d] + s) == (d - 48) as nat * Pow10(|s|) + Value(s)
  {
    if s == [] {
      assert ([d] + s)[..0] == [];
    } else {
      var t := s[..|s| - 1];
      PrependDigit(d, t);
      assert ([d] + s)[..|s|] == [d] + t;
      assert 10 * ((d - 48) as nat * Pow10(|t|)) == (d - 48) as nat * Pow10(|s|);
    }
  }

  /** A numeral of `k` digits is below 10^k, and at least 10^(k-1) if it has no leading zero. */
  lemma {:induction false} ValueRange(s: seq<Byte>)
    requires Digits(s)
    ensures Value(s) < Pow10(|s|)
    ensures s != [] && s[0] != 48 ==> Value(s) >= Pow10(|s| - 1)
  {
    if s != [] {
      ValueRange(s[..|s| - 1]);
    }
  }

  lemma {:induction false} Pow10Monotonic(a: nat, b: nat)
    requires a <= b
    ensures Pow10(a) <= Pow10(b)
  {
    if a < b {
      Pow10Monotonic(a, b - 1);
    }
  }

  /** There is one canonical numeral for each number. */
  lemma {:induction false} NumeralUnique(s: seq<Byte>, t: seq<Byte>)
    requires Canonical(s) && Canonical(t) && Value(s) == Value(t)
    ensures s == t
    decreases |s|
  {
    var a, b := s[..|s| - 1], t[..|t| - 1];
    assert s == a + [s[|s| - 1]] && t == b + [t[|t| - 1]];
    assert Value(a) == Value(b) && s[|s| - 1] == t[|t| - 1];
    ValueRange(a);
    ValueRange(b);
    if a != [] && b != [] {
      NumeralUnique(a, b);
    }
  }

  /** `strlen` */
  method Strlen(str: array<Byte>) returns (len: nat)
    requires exists i :: 0 <= i < str.Length && str[i] == 0
    ensures len < str.Length && str[len] == 0 && forall i :: 0 <= i < len ==> str[i] != 0
  {
    len := 0;
    while str[len] != 0
      invariant len < str.Length && forall i :: 0 <= i < len ==> str[i] != 0
      decreases str.Length - len
    {
      len := len + 1;
    }
  }

  /** `strrev`: the characters before the NUL are reversed in place. */
  method Strrev(str: array<Byte>, ghost n: nat)
    requires n < str.Length && str[n] == 0 && forall i :: 0 <= i < n ==> str[i] != 0
    modifies str
    ensures str[..n] == Reversed(old(str[..n])) && str[n..] == old(str[n..])
  {
    var len := Strlen(str);
    assert len == n;
    var i := 0;
    while i < len / 2
      invariant 0 <= i <= len / 2
      invariant forall k :: 0 <= k < i ==> str[k] == old(str[len - 1 - k]) && str[len - 1 - k] == old(str[k])
      invariant forall k :: i <= k < len - i || len <= k < str.Length ==> str[k] == old(str[k])
    {
      var temp := str[i];
      str[i] := str[len - 1 - i];
      str[len - 1 - i] := temp;
      i := i + 1;
    }
    forall k | 0 <= k < n ensures str[k] == old(str[n - 1 - k]) {
      if k >= n - i {
        assert str[len - 1 - (n - 1 - k)] == old(str[n - 1 - k]);
      }
    }
  }

  /** What `put_serial` is given: the characters up to the NUL. */
  method PrintSerial(s: array<Byte>, ghost n: nat) returns (out: seq<Byte>)
    requires n < s.Length && s[n] == 0 && forall i :: 0 <= i < n ==> s[i] != 0
    ensures out == s[..n]
  {
    var len := Strlen(s);
    out := [];
    var i := 0;
    while i < len
      invariant 0 <= i <= len == n && out == s[..i]
    {
      out := out + [s[i]];
      i := i + 1;
    }
  }

  /** The digits written so far, read backwards, and the rest of the number make up the number. */
  ghost predicate Accounted(digits: seq<Byte>, n: nat, n0: nat) {
    Digits(Reversed(digits)) && n * Pow10(|digits|) + Value(Reversed(digits)) == n0
  }

  lemma OneMoreDigit(digits: seq<Byte>, n: nat, n0: nat)
    requires Accounted(digits, n, n0)
    ensures Accounted(digits + [n % 10 + ZERO], n / 10, n0)
  {
    var d := n % 10 + ZERO;
    assert Reversed(digits + [d]) == [d] + Reversed(digits);
    PrependDigit(d, Reversed(digits));
    NextDigit(n, Pow10(|digits|));
  }

  lemma NextDigit(n: nat, p: nat)
    ensures n * p == n / 10 * (10 * p) + n % 10 * p
  {
    assert n == n / 10 * 10 + n % 10;
    assert n / 10 * (10 * p) == n / 10 * 10 * p;
    assert n * p == (n / 10 * 10 + n % 10) * p == n / 10 * 10 * p + n % 10 * p;
  }

  lemma ElevenDigits(n: nat, pos: nat)
    requires n > 0 && pos >= 10
    ensures n * Pow10(pos) >= 100_0000_0000
  {
    Pow10Monotonic(10, pos);
    assert Pow10(5) == 10_0000;
    assert Pow10(10) == 100_0000_0000;
    assert n * Pow10(pos) >= Pow10(pos);
  }

  /** The digit loop: `n0` written backwards, and never past the tenth character. */
  method WriteDigits(s: array<Byte>, n0: Word) returns (pos: nat)
    requires s.Length == BUFFER && n0 > 0
    modifies s
    ensures 0 < pos <= 10 && Accounted(s[..pos], 0, n0) && s[pos - 1] != ZERO
  {
    hide Accounted;
    pos := 0;
    var n: nat := n0;
    assert Accounted(s[..pos], n, n0) by {
      Unwritten(s[..pos], n);
    }
    while n > 0
      invariant 0 <= pos <= 10 && Accounted(s[..pos], n, n0)
      invariant n == 0 ==> pos > 0 && s[pos - 1] != ZERO
      decreases n
    {
      TenDigits(s[..pos], n, n0);
      OneMoreDigit(s[..pos], n, n0);
      ghost var written := s[..pos];
      s[pos] := n % 10 + ZERO;
      assert s[..pos + 1] == written + [n % 10 + ZERO];
      n := n / 10;
      pos := pos + 1;
    }
  }

  lemma Unwritten(digits: seq<Byte>, n: nat)
    requires digits == []
    ensures Accounted(digits, n, n)
  {
  }

  /** A digit is still to be written only while fewer than ten have been. */
  lemma TenDigits(digits: seq<Byte>, n: nat, n0: Word)
    requires n > 0 && Accounted(digits, n, n0)
    ensures |digits| < 10
  {
    if |digits| >= 10 {
      ElevenDigits(n, |digits|);
    }
  }

  /** All digits written, and the last of them not zero: read backwards they are the numeral. */
  lemma ReadBackwards(digits: seq<Byte>, n: nat)
    requires Accounted(digits, 0, n) && digits != [] && digits[|digits| - 1] != ZERO
    ensures Canonical(Reversed(digits)) && Value(Reversed(digits)) == n && Digits(Reversed(digits))
    ensures forall i :: 0 <= i < |digits| ==> digits[i] != 0
  {
    var r := Reversed(digits);
    forall i | 0 <= i < |digits| ensures digits[i] != 0 {
      assert digits[i] == r[|digits| - 1 - i];
    }
  }

  lemma ZeroNumeral()
    ensures Canonical([48]) && Value([48]) == 0
  {
    assert [48][..0] == [];
  }

  /** `print_serial_unsigned_decimal`: the one numeral for `n`, at most ten digits in a buffer of 25. */
  method PrintSerialUnsignedDecimal(n: Word) returns (out: seq<Byte>)
    ensures Canonical(out) && Value(out) == n && |out| <= 10
    ensures forall i :: 0 <= i < |out| ==> 48 <= out[i] <= 57
    ensures n == 0 ==> out == [48]
  {
    hide Value, Canonical, Accounted, Reversed;
    var s := new Byte[BUFFER](_ => 0);
    if n == 0 {
      s[0] := ZERO;
      s[1] := 0;
      out := PrintSerial(s, 1);
      assert out == [ZERO];
      ZeroNumeral();
      return;
    }
    var pos := WriteDigits(s, n);
    ghost var digits := s[..pos];
    ReadBackwards(digits, n);
    s[pos] := 0;
    assert s[..pos] == digits;
    Strrev(s, pos);
    assert forall i :: 0 <= i < pos ==> s[i] == s[..pos][i] == digits[pos - 1 - i];
    out := PrintSerial(s, pos);
  }
}
