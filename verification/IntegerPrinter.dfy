/** The integer printer of the logging printf, which divides by the largest place
    value. */
module IntegerPrinter {
  import opened Words
  import opened Bits
  import opened Digits

  /** How many digits the number has, counted from its place `k` on. */
  function Count(v: nat, base: nat, k: nat): nat
    requires 2 <= base <= 16
  {
    if High(v, base, k) == 0 then 0 else |Text(High(v, base, k), base, false)|
  }

  lemma {:induction false} CaseKeepsLength(v: nat, base: nat, upper: bool)
    requires 2 <= base <= 16
    ensures |Text(v, base, upper)| == |Text(v, base, false)|
    decreases v
  {
    if v >= base {
      Shrinks(v, base);
      CaseKeepsLength(v / base, base, upper);
    }
  }

  lemma CountStep(v: nat, base: nat, k: nat)
    requires 2 <= base <= 16 && High(v, base, k) > 0
    ensures Count(v, base, k) == 1 + Count(v, base, k + 1)
  {
    HighStep(v, base, k);
    BelowBase(High(v, base, k), base);
    TextSnoc(High(v, base, k), base, false);
  }

  lemma HighZero(v: nat, base: nat)
    requires base > 0
    ensures High(v, base, 0) == v && Pow(base, 1) == base
  {
    assert v / 1 == v;
  }

  /** A place that is occupied is not larger than the number. */
  lemma OccupiedPlace(v: nat, base: nat, k: nat)
    requires base > 0 && High(v, base, k) > 0
    ensures Pow(base, k) <= v
  {
    if v < Pow(base, k) {
      Remainder(v, Pow(base, k), 0, v);
    }
  }

  /** Count the digits and find the largest place value; it never overflows a
      word. */
  method CountDigits(v: u32, base: nat) returns (digitCount: nat, p: u32, ghost k: nat)
    requires 2 <= base <= 16
    ensures digitCount == |Text(v, base, false)|
    ensures p == Pow(base, k) && High(v, base, k + 1) == 0 && (k == 0 || High(v, base, k) > 0)
  {
    HighZero(v, base);
    HighStep(v, base, 0);
    var vShrink := v;
    p, digitCount, k := 1, 1, 0;
    vShrink := vShrink / base;
    TextSnoc(v, base, false);
    BelowBase(v, base);
    while vShrink > 0
      invariant vShrink == High(v, base, k + 1) && p == Pow(base, k)
      invariant k == 0 || High(v, base, k) > 0
      invariant |Text(v, base, false)| == digitCount + Count(v, base, k + 1)
      decreases vShrink
    {
      CountStep(v, base, k + 1);
      OccupiedPlace(v, base, k + 1);
      HighStep(v, base, k);
      HighStep(v, base, k + 1);
      Lower(vShrink, base);
      digitCount := digitCount + 1;
      p := p * base;
      vShrink := vShrink / base;
      k := k + 1;
    }
  }

  lemma Lower(v: nat, base: nat)
    requires base >= 2 && v > 0
    ensures v / base < v
  {
  }

  lemma DigitAtPlace(v: nat, base: nat, k: nat)
    requires 2 <= base <= 16
    ensures var r := v % Pow(base, k + 1);
            r / Pow(base, k) == High(v, base, k) % base && r % Pow(base, k) == v % Pow(base, k)
  {
    HighStep(v, base, k);
    DivideTwice(v, Pow(base, k), base);
  }

  lemma NextPlace(v: nat, base: nat, k: nat)
    requires 2 <= base <= 16
    ensures k == 0 ==> Pow(base, k) / base == 0
    ensures k > 0 ==> Pow(base, k) / base == Pow(base, k - 1)
    ensures k > 0 && High(v, base, k) > 0 ==> High(v, base, k - 1) > 0
  {
    if k > 0 {
      HighStep(v, base, k - 1);
      ExactDivide(Pow(base, k - 1), base);
    }
  }

  /** Print the digits, from the largest place value `p` down. */
  method PrintDigits(v: u32, base: nat, upper: bool, p: u32, ghost k: nat) returns (out: string)
    requires 2 <= base <= 16 && p == Pow(base, k)
    requires High(v, base, k + 1) == 0 && (k == 0 || High(v, base, k) > 0)
    ensures out == Text(v, base, upper)
  {
    HighZero(v, base);
    var rest, place := v, p;
    ghost var i: int := k;
    BelowBase(v, Pow(base, k + 1));
    Remainder(v, Pow(base, k + 1), 0, v);
    out := "";
    while place > 0
      invariant -1 <= i <= k && place == if i >= 0 then Pow(base, i) else 0
      invariant rest == v % Pow(base, i + 1)
      invariant out == Printed(v, base, i + 1, upper)
      invariant i >= 0 ==> i == 0 || High(v, base, i) > 0
      decreases i
    {
      DigitAtPlace(v, base, i);
      var d := rest / place;
      out := out + [if d <= 9 then (48 + d) as char else ((if upper then 65 else 97) + d - 10) as char];
      PrintedStep(v, base, i, upper);
      rest := rest % place;
      NextPlace(v, base, i);
      place := place / base;
      i := i - 1;
    }
  }

  method StripSign(word: u32, signed: bool) returns (v: u32, sign: bool)
    ensures v == Magnitude(word, signed) && sign == Negative(word, signed)
  {
    SignBit(word);
    v, sign := word, false;
    if signed && And(word, SIGN) != 0 {
      v := (WORD - 1 - word + 1) % WORD;
      sign := true;
    }
  }

  /** Print a word in a base with its sign and padding. */
  method PrintInteger(word: u32, base: nat, signed: bool, zero: bool, width: int, upper: bool) returns (out: string)
    requires 2 <= base <= 16
    ensures out == Render(word, base, signed, zero, width, upper)
  {
    var v, sign := StripSign(word, signed);
    var digitCount, p;
    ghost var k;
    digitCount, p, k := CountDigits(v, base);
    CaseKeepsLength(v, base, upper);
    var before := width - digitCount;
    if zero {
      out := "";
      if sign {
        out := out + "-";
        before := before - 1;
      }
      out := out + Repeat('0', before);
    } else {
      if sign {
        before := before - 1;
      }
      out := Repeat(' ', before);
      if sign {
        out := out + "-";
      }
    }
    var digits := PrintDigits(v, base, upper, p, k);
    out := out + digits;
  }

  lemma {:induction false} SignBit(v: u32)
    ensures And(v, SIGN) != 0 <==> v >= SIGN
  {
    SignPow();
    MaskField(v, 1, 31);
    assert Pow(2, 1) - 1 == 1 && Shl(1, 31) == SIGN;
    assert Shr(v, 31) == v / SIGN <= 1;
    BelowBase(v, SIGN);
  }

  lemma {:induction false} SignPow()
    ensures Pow(2, 31) == SIGN
  {
    assert Pow(2, 8) == 256 by {
      assert Pow(2, 4) == 16;
    }
    PowAdd(2, 8, 8);
    PowAdd(2, 16, 8);
    PowAdd(2, 24, 7);
    assert Pow(2, 7) == 128;
  }
}
