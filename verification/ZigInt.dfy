/** Zig's std.fmt.parseInt in base 10. */
module ZigInt {
  import opened Decimal

  datatype Parsed = Number(n: int) | InvalidCharacter | Overflow

  /** The digits read one by one; the first bad character, or the first digit that
      leaves the range, decides. Underscores may separate digits. */
  function Accumulate(s: string, sign: int, lo: int, hi: int): Parsed {
    if s == [] then Number(0)
    else
      var c, acc := s[|s| - 1], Accumulate(s[..|s| - 1], sign, lo, hi);
      if !acc.Number? || c == '_' then acc
      else if !IsDigit(c) then InvalidCharacter
      else
        var n := 10 * acc.n + sign * DigitValue(c);
        if lo <= n <= hi then Number(n) else Overflow
  }

  function ParseDigits(s: string, sign: int, lo: int, hi: int): Parsed {
    if s == [] || s[0] == '_' || s[|s| - 1] == '_' then InvalidCharacter
    else Accumulate(s, sign, lo, hi)
  }

  function ParseInt(s: string, lo: int, hi: int): Parsed {
    if s == [] then InvalidCharacter
    else if s[0] == '+' then ParseDigits(s[1..], 1, lo, hi)
    else if s[0] == '-' then ParseDigits(s[1..], -1, lo, hi)
    else ParseDigits(s, 1, lo, hi)
  }

  /** A number that is read is in range. */
  lemma {:induction false} AccumulateInRange(s: string, sign: int, lo: int, hi: int)
    requires lo <= 0 <= hi
    ensures Accumulate(s, sign, lo, hi).Number? ==> lo <= Accumulate(s, sign, lo, hi).n <= hi
  {
    if s != [] { AccumulateInRange(s[..|s| - 1], sign, lo, hi); }
  }

  lemma ParsedInRange(s: string, lo: int, hi: int)
    requires lo <= 0 <= hi
    ensures ParseInt(s, lo, hi).Number? ==> lo <= ParseInt(s, lo, hi).n <= hi
  {
    if s != [] {
      AccumulateInRange(s, 1, lo, hi);
      AccumulateInRange(s[1..], 1, lo, hi);
      AccumulateInRange(s[1..], -1, lo, hi);
    }
  }

  /** Digits alone give their value, with its sign, when it is in range: no prefix is
      out of it. */
  lemma {:induction false} AccumulateDigits(s: string, lo: int, hi: int)
    requires AllDigits(s) && lo <= 0 <= hi
    ensures Accumulate(s, 1, lo, hi) == if Value(s) <= hi then Number(Value(s)) else Overflow
    ensures Accumulate(s, -1, lo, hi) == if lo <= 0 - Value(s) then Number(0 - Value(s)) else Overflow
  {
    if s != [] { AccumulateDigits(s[..|s| - 1], lo, hi); }
  }

  /** A sign may stand before the digits; a sign alone, or nothing, is no number. */
  lemma SignedDigits(d: string, lo: int, hi: int)
    requires AllDigits(d) && lo <= 0 <= hi
    ensures d != [] ==>
              && ParseInt(d, lo, hi) == ParseInt("+" + d, lo, hi)
              && ParseInt(d, lo, hi) == (if Value(d) <= hi then Number(Value(d)) else Overflow)
              && ParseInt("-" + d, lo, hi) == (if lo <= 0 - Value(d) then Number(0 - Value(d)) else Overflow)
    ensures d == [] ==>
              && ParseInt("+" + d, lo, hi) == ParseInt("-" + d, lo, hi) == InvalidCharacter
              && ParseInt(d, lo, hi) == InvalidCharacter
  {
    AccumulateDigits(d, lo, hi);
    assert ("+" + d)[1..] == d && ("-" + d)[1..] == d;
  }

  /** What comes first in a string decides: a prefix that is no number is not mended. */
  lemma {:induction false} PrefixDecides(a: string, b: string, sign: int, lo: int, hi: int)
    requires !Accumulate(a, sign, lo, hi).Number?
    ensures Accumulate(a + b, sign, lo, hi) == Accumulate(a, sign, lo, hi)
  {
    if b == [] {
      assert a + b == a;
    } else {
      var k := |b| - 1;
      assert (a + b)[..|a + b| - 1] == a + b[..k] && (a + b)[|a + b| - 1] == b[k];
      PrefixDecides(a, b[..k], sign, lo, hi);
    }
  }

  /** An underscore between digits says nothing; a character that is neither ends it. */
  lemma OneMore(a: string, c: char, sign: int, lo: int, hi: int)
    requires Accumulate(a, sign, lo, hi).Number? && !IsDigit(c)
    ensures Accumulate(a + [c], sign, lo, hi) == if c == '_' then Accumulate(a, sign, lo, hi) else InvalidCharacter
  {
    assert (a + [c])[..|a|] == a;
  }

  /** What `{d}` prints, parseInt reads, if and only if it is in range. */
  lemma ParsePrinted(n: nat, lo: int, hi: int)
    requires lo <= 0 <= hi
    ensures ParseInt(Print(n), lo, hi) == if n <= hi then Number(n) else Overflow
  {
    AccumulateDigits(Print(n), lo, hi);
    ValuePrint(n);
  }
}
