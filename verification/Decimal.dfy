/** atoi and itoa of user/libc.c: decimal text and 32-bit signed integers. */
module Decimal {

  /** Two's complement truncation to 32 bits. */
  function Wrap32(x: int): (r: int)
    ensures -0x8000_0000 <= r < 0x8000_0000
    ensures -0x8000_0000 <= x < 0x8000_0000 ==> r == x
  {
    (x + 0x8000_0000) % 0x1_0000_0000 - 0x8000_0000
  }

  predicate Int32(x: int) { -0x8000_0000 <= x < 0x8000_0000 }

  // C division and remainder by 10: the quotient is rounded towards zero.

  function Quot10(t: int): int { if t >= 0 then t / 10 else -((-t) / 10) }

  function Rem10(t: int): (r: int)
    ensures -9 <= r <= 9
    ensures t == 10 * Quot10(t) + r
  {
    if t >= 0 then t % 10 else -((-t) % 10)
  }

  function DigitChar(t: int): char { (48 + Rem10(t)) as char }

  /** The characters itoa writes for t, most significant first. */
  function Digits(t: int): (s: string)
    ensures s != ""
    decreases if t >= 0 then t else -t
  {
    if Quot10(t) == 0 then [DigitChar(t)] else Digits(Quot10(t)) + [DigitChar(t)]
  }

  /** The text itoa writes for x, without its terminator. */
  function Text(x: int): string {
    if x < 0 then "-" + Digits(Wrap32(-x)) else Digits(x)
  }

  /** The loop of atoi from the partial result r on. */
  function Accumulate(neg: bool, r: int, s: string): int
    decreases |s|
  {
    if s == "" then r
    else Accumulate(neg, Wrap32(if neg then 10 * r - (s[0] as int - 48) else 10 * r + (s[0] as int - 48)), s[1..])
  }

  /** The number atoi makes of a text. */
  function Parse(s: string): int {
    if s != "" && s[0] == '-' then Accumulate(true, 0, s[1..])
    else if s != "" && s[0] == '+' then Accumulate(false, 0, s[1..])
    else Accumulate(false, 0, s)
  }

  lemma {:induction false} AccumulateAppend(neg: bool, r: int, s: string, c: char)
    ensures var a := Accumulate(neg, r, s);
            Accumulate(neg, r, s + [c]) == Wrap32(if neg then 10 * a - (c as int - 48) else 10 * a + (c as int - 48))
    decreases |s|
  {
    if s == "" {
      assert (s + [c])[1..] == "";
    } else {
      assert (s + [c])[1..] == s[1..] + [c];
      var d := s[0] as int - 48;
      AccumulateAppend(neg, Wrap32(if neg then 10 * r - d else 10 * r + d), s[1..], c);
    }
  }

  /** Truncating a partial result early changes nothing. */
  lemma WrapStep(a: int, b: int)
    ensures Wrap32(10 * Wrap32(a) + b) == Wrap32(10 * a + b)
  {
    var k := (a + 0x8000_0000) / 0x1_0000_0000;
    assert Wrap32(a) == a - 0x1_0000_0000 * k;
    var x := 10 * a + b + 0x8000_0000;
    assert (x - 0x1_0000_0000 * (10 * k)) % 0x1_0000_0000 == x % 0x1_0000_0000;
  }

  /** The characters of s as the digits of a decimal number, the last the lowest. */
  function Value(s: string): int {
    if s == "" then 0 else 10 * Value(s[..|s| - 1]) + (s[|s| - 1] as int - 48)
  }

  lemma {:induction false} AccumulateValue(neg: bool, s: string)
    ensures Accumulate(neg, 0, s) == Wrap32(if neg then -Value(s) else Value(s))
  {
    if s != "" {
      var front, c := s[..|s| - 1], s[|s| - 1];
      var v, d := Value(front), c as int - 48;
      AccumulateValue(neg, front);
      AccumulateAppend(neg, 0, front, c);
      assert s == front + [c];
      WrapStep(if neg then -v else v, if neg then -d else d);
    }
  }

  lemma {:induction false} ValueOfDigits(t: int)
    ensures Value(Digits(t)) == t
    decreases if t >= 0 then t else -t
  {
    var front := Digits(t)[..|Digits(t)| - 1];
    if Quot10(t) == 0 {
      assert front == "";
    } else {
      assert front == Digits(Quot10(t));
      ValueOfDigits(Quot10(t));
    }
  }

  lemma DigitsAccumulate(neg: bool, t: int)
    ensures Accumulate(neg, 0, Digits(t)) == Wrap32(if neg then -t else t)
  {
    AccumulateValue(neg, Digits(t));
    ValueOfDigits(t);
  }

  /** What atoi makes of any text: its value as a decimal number, negated behind a
      '-', and truncated; a '+' in front changes nothing. */
  lemma ParseMeans(s: string)
    ensures s == "" || (s[0] != '-' && s[0] != '+') ==> Parse(s) == Wrap32(Value(s))
    ensures Parse("-" + s) == Wrap32(-Value(s)) && Parse("+" + s) == Wrap32(Value(s))
  {
    assert ("-" + s)[1..] == s && ("+" + s)[1..] == s;
    AccumulateValue(true, s);
    AccumulateValue(false, s);
  }

  lemma {:induction false} FirstDigit(t: int)
    requires t >= 0
    ensures '0' <= Digits(t)[0] <= '9' && (Digits(t)[0] == '0' <==> t == 0)
    decreases t
  {
    if Quot10(t) != 0 { FirstDigit(Quot10(t)); }
  }

  /** atoi reads back what itoa wrote, for every 32-bit integer: the smallest one,
      whose negation overflows, survives because both sides wrap around. */
  lemma RoundTrip(x: int)
    requires Int32(x)
    ensures Parse(Text(x)) == x
  {
    if x < 0 {
      assert Text(x)[1..] == Digits(Wrap32(-x));
      DigitsAccumulate(true, Wrap32(-x));
    } else {
      FirstDigit(x);
      DigitsAccumulate(false, x);
    }
  }

  predicate IsDecimal(s: string) { forall i :: 0 <= i < |s| ==> '0' <= s[i] <= '9' }

  lemma {:induction false} DigitsDecimal(t: int)
    ensures IsDecimal(Digits(t)) <==> t >= 0
    decreases if t >= 0 then t else -t
  {
    var s := Digits(t);
    if Quot10(t) != 0 {
      DigitsDecimal(Quot10(t));
      assert s[..|s| - 1] == Digits(Quot10(t));
      if t < 0 {
        var i :| 0 <= i < |s| - 1 && !('0' <= Digits(Quot10(t))[i] <= '9');
        assert s[i] == Digits(Quot10(t))[i];
      }
    } else {
      assert s[0] == DigitChar(t);
      LeadingRemainder(t);
    }
  }

  lemma LeadingRemainder(t: int)
    requires Quot10(t) == 0
    ensures t == Rem10(t)
  {
  }

  /** What itoa writes is a decimal numeral, with a '-' if x is negative and no
      needless zero in front, exactly if x is not the smallest integer. */
  lemma WellFormedIff(x: int)
    requires Int32(x)
    ensures var s := if x < 0 then Text(x)[1..] else Text(x);
            && (IsDecimal(s) <==> x != -0x8000_0000)
            && (x != -0x8000_0000 ==> (s[0] == '0' <==> x == 0) && (x == 0 ==> s == "0"))
    ensures x < 0 ==> Text(x)[0] == '-'
  {
    var t := if x < 0 then Wrap32(-x) else x;
    if x < 0 { assert Text(x)[1..] == Digits(t); }
    DigitsDecimal(t);
    if t >= 0 { FirstDigit(t); }
  }

  // ------------------------------------------------------------ the two loops

  /** The string in a buffer: the characters before the first NUL. */
  function CString(b: seq<char>): (s: string)
    requires '\0' in b
    ensures |s| < |b| && b[..|s|] == s && b[|s|] == '\0' && '\0' !in s
    decreases |b|
  {
    if b[0] == '\0' then "" else [b[0]] + CString(b[1..])
  }

  method Atoi(x: array<char>) returns (r: int)
    requires '\0' in x[..]
    ensures r == Parse(CString(x[..]))
  {
    ghost var text := CString(x[..]);
    var p, s := 0, false;
    r := 0;
    assert x[0] == (text + "\0")[0];
    if x[p] == '-' {
      s, p := true, p + 1;
    } else if x[p] == '+' {
      s, p := false, p + 1;
    }
    while x[p] != '\0'
      invariant 0 <= p <= |text| && Parse(text) == Accumulate(s, r, text[p..])
      decreases |text| - p
    {
      assert x[p] == text[p] && text[p..][1..] == text[p + 1..];
      r := Wrap32(if s then r * 10 - (x[p] as int - 48) else r * 10 + (x[p] as int - 48));
      p := p + 1;
    }
    assert x[p] == (text + "\0")[p];
  }

  /** Count the digits, then fill them in backwards: the second pass ends just
      before the start of the buffer. */
  method Itoa(r: array<char>, x: int)
    requires Int32(x) && |Text(x)| < r.Length
    modifies r
    ensures r[..|Text(x)| + 1] == Text(x) + "\0"
    ensures r[|Text(x)| + 1..] == old(r[|Text(x)| + 1..])
  {
    hide *;
    TextIs(x);
    ghost var r0 := r[..];
    var p, t, n := 0, x, x;
    if x < 0 {
      p := 1;
      t := Wrap32(-x);
      n := t;
    }
    ghost var sign := p;
    p := CountDigits(p, n);
    r[p] := '\0';
    p := FillDigits(r, p - 1, t);
    Placed(r0, sign, Digits(t), r[..]);
    if x < 0 {
      r[p] := '-';
      p := p - 1;
    }
    assert p == -1;
  }

  lemma TextIs(x: int)
    ensures Text(x) == if x < 0 then "-" + Digits(Wrap32(-x)) else Digits(x)
  {
    hide Digits, Wrap32;
  }

  /** The digits with their terminator in the buffer, and the sign before them. */
  lemma Placed(r0: string, sign: nat, digits: string, r: string)
    requires sign <= 1 && sign + |digits| < |r0|
    requires var r1 := r0[sign + |digits| := '\0']; r == r1[..sign] + digits + r1[sign + |digits|..]
    ensures sign == 0 ==> r[..|digits| + 1] == digits + "\0" && r[|digits| + 1..] == r0[|digits| + 1..]
    ensures sign == 1 ==>
              var s := r[0 := '-'];
              s[..|digits| + 2] == "-" + digits + "\0" && s[|digits| + 2..] == r0[|digits| + 2..]
  {
  }

  /** The counting loop: p moves on by the number of digits of n. */
  method CountDigits(p0: nat, n0: int) returns (p: nat)
    ensures p == p0 + |Digits(n0)|
  {
    var n := n0;
    p := p0 + 1;
    n := Quot10(n);
    while n != 0
      invariant p0 + |Digits(n0)| == if n == 0 then p else p + |Digits(n)|
      decreases if n >= 0 then n else -n
    {
      p := p + 1;
      n := Quot10(n);
    }
  }

  /** The buffer with `tail` written from index p on. */
  function Filled(r0: string, tail: string, p: nat): string
    requires p + |tail| <= |r0|
  {
    r0[..p] + tail + r0[p + |tail|..]
  }

  lemma FilledMore(r0: string, tail: string, p: nat, c: char)
    requires p + 1 + |tail| <= |r0|
    ensures Filled(r0, tail, p + 1)[p := c] == Filled(r0, [c] + tail, p)
  {
  }

  /** The filling loop: the digits of t, ending at index `last`. */
  method FillDigits(r: array<char>, last: nat, t0: int) returns (p: int)
    requires |Digits(t0)| - 1 <= last < r.Length
    modifies r
    ensures p == last - |Digits(t0)|
    ensures r[..] == old(r[..p + 1]) + Digits(t0) + old(r[last + 1..])
  {
    hide *;
    var t := t0;
    DigitsTurn(t);
    ghost var r0, tail := r[..], [DigitChar(t0)];
    FilledOne(r0, last, DigitChar(t0));
    p := last;
    r[p] := DigitChar(t);
    p := p - 1;
    t := Quot10(t);
    while t != 0
      invariant -1 <= p < last && |tail| == last - p
      invariant Digits(t0) == (if t == 0 then "" else Digits(t)) + tail
      invariant r[..] == Filled(r0, tail, p + 1)
      decreases if t >= 0 then t else -t
    {
      DigitsTurn(t);
      FilledMore(r0, tail, p, DigitChar(t));
      r[p] := DigitChar(t);
      tail := [DigitChar(t)] + tail;
      p := p - 1;
      t := Quot10(t);
    }
    FilledIs(r0, tail, p + 1);
    assert r0[..p + 1] == old(r[..p + 1]) && r0[last + 1..] == old(r[last + 1..]);
  }

  /** One turn of either loop. */
  lemma DigitsTurn(t: int)
    ensures Digits(t) == (if Quot10(t) == 0 then "" else Digits(Quot10(t))) + [DigitChar(t)]
    ensures if t >= 0 then 0 <= Quot10(t) && (t > 0 ==> Quot10(t) < t) else t < Quot10(t) <= 0
  {
  }

  lemma FilledOne(r0: string, last: nat, c: char)
    requires last < |r0|
    ensures r0[last := c] == Filled(r0, [c], last)
  {
  }

  lemma FilledIs(r0: string, tail: string, p: nat)
    requires p + |tail| <= |r0|
    ensures Filled(r0, tail, p) == r0[..p] + tail + r0[p + |tail|..]
  {
  }
}
