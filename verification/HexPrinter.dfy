/** The hexadecimal printer of the small printf, which works by shifting and
    masking. */
module HexPrinter {
  import opened Words
  import opened Bits
  import opened Digits

  lemma {:induction false} HighTop(v: u32)
    ensures High(v, 16, 8) == 0 && High(v, 16, 0) == v
  {
    assert Pow(16, 0) == 1 && Pow(16, 1) == 16 && Pow(16, 2) == 0x100 && Pow(16, 3) == 0x1000;
    assert Pow(16, 4) == 0x1_0000 && Pow(16, 5) == 0x10_0000 && Pow(16, 6) == 0x100_0000;
    assert Pow(16, 7) == 0x1000_0000 && Pow(16, 8) == 0x1_0000_0000;
  }

  /** Masking and shifting at place `k` reads the digit there. */
  lemma Nibble(v: nat, k: nat)
    ensures var field := And(v, Shl(0xF, 4 * k));
            Shr(field, 4 * k) == High(v, 16, k) % 16 && (field == 0 <==> High(v, 16, k) % 16 == 0)
  {
    NibblePow(k);
    assert Pow(2, 4) == 16;
    MaskField(v, 4, 4 * k);
    ReadField(v, 4, 4 * k);
  }

  /** Print a word in hexadecimal, without leading zeros. */
  method PrintHex(v: u32) returns (out: string)
    ensures out == Text(v, 16, false)
  {
    HighTop(v);
    if v == 0 {
      return "0";
    }
    var shift := 28;
    ghost var k := 7;
    Nibble(v, k);
    while And(v, Shl(0xF, shift)) == 0
      invariant 0 <= shift <= 28 && shift == 4 * k
      invariant High(v, 16, k + 1) == 0
      invariant And(v, Shl(0xF, shift)) == 0 <==> High(v, 16, k) % 16 == 0
      decreases shift
    {
      HighStep(v, 16, k);
      shift, k := shift - 4, k - 1;
      Nibble(v, k);
    }
    out := "";
    while shift >= 0
      invariant -4 <= shift <= 28 && shift == 4 * k
      invariant out == Printed(v, 16, k + 1, false)
      invariant k >= 0 ==> High(v, 16, k) > 0
      decreases shift
    {
      Nibble(v, k);
      var digit := Shr(And(v, Shl(0xF, shift)), shift);
      var c := if digit <= 9 then (48 + digit) as char else (97 + digit - 10) as char;
      out := out + [c];
      PrintedStep(v, 16, k, false);
      shift, k := shift - 4, k - 1;
      if k >= 0 {
        HighStep(v, 16, k);
      }
    }
  }
}
