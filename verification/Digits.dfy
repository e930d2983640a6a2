/** Numbers as text: what the two printers are meant to print, and how to read it
    back. */
module Digits {
  import opened Words
  import opened Bits

  const SIGN: nat := 0x8000_0000

  function DigitChar(d: nat, upper: bool): char
    requires d < 16
  {
    if d <= 9 then (48 + d) as char else ((if upper then 55 else 87) + d) as char
  }

  function CharDigit(c: char): (d: nat)
    ensures d < 16
  {
    if '0' <= c <= '9' then c as nat - 48
    else if 'a' <= c <= 'f' then c as nat - 87
    else if 'A' <= c <= 'F' then c as nat - 55
    else 0
  }

  /** The digits of `v`, the most significant one first. */
  function Text(v: nat, base: nat, upper: bool): (s: string)
    requires 2 <= base <= 16
    ensures s != ""
  {
    if v < base then [DigitChar(v, upper)]
    else Text(v / base, base, upper) + [DigitChar(v % base, upper)]
  }

  function Repeat(c: char, k: int): (s: string)
    ensures |s| == if k > 0 then k else 0
    ensures forall i :: 0 <= i < |s| ==> s[i] == c
  {
    if k <= 0 then "" else Repeat(c, k - 1) + [c]
  }

  predicate Negative(v: u32, signed: bool) {
    signed && v >= SIGN
  }

  /** The number a word stands for. */
  function Value(v: u32, signed: bool): int {
    if Negative(v, signed) then v - WORD else v
  }

  function Magnitude(v: u32, signed: bool): u32 {
    if Negative(v, signed) then WORD - v else v
  }

  function Max(a: int, b: int): int {
    if a >= b then a else b
  }

  /** The sign, the padding up to `width` and the digits: zeros go behind the sign,
      spaces before it. */
  function Render(v: u32, base: nat, signed: bool, zero: bool, width: int, upper: bool): string
    requires 2 <= base <= 16
  {
    var sign := if Negative(v, signed) then "-" else "";
    var text := Text(Magnitude(v, signed), base, upper);
    var pad := width - |sign| - |text|;
    if zero then sign + Repeat('0', pad) + text else Repeat(' ', pad) + sign + text
  }

  /** Process a string from its first character on. */
  function Fold(s: string, f: (nat, char) -> nat): nat {
    if s == "" then 0 else f(Fold(s[..|s| - 1], f), s[|s| - 1])
  }

  function AppendDigit(base: nat): (nat, char) -> nat {
    (n: nat, c: char) => n * base + CharDigit(c)
  }

  /** Read digits, the most significant one first. */
  function ParseNat(s: string, base: nat): nat {
    Fold(s, AppendDigit(base))
  }

  /** Read a number with its padding and sign. */
  function Parse(s: string, base: nat): int {
    if s != "" && s[0] == ' ' then Parse(s[1..], base)
    else if s != "" && s[0] == '-' then 0 - ParseNat(s[1..], base)
    else ParseNat(s, base)
  }

  lemma DigitCharParses(d: nat, upper: bool)
    requires d < 16
    ensures var c := DigitChar(d, upper);
            CharDigit(c) == d && c != ' ' && c != '-' && (c == '0' <==> d == 0)
  {
  }

  lemma FoldSnoc(s: string, c: char, f: (nat, char) -> nat)
    ensures Fold(s + [c], f) == f(Fold(s, f), c)
  {
    assert (s + [c])[..|s|] == s;
  }

  lemma Divide(v: nat, base: nat)
    requires base > 0
    ensures v / base * base + v % base == v
  {
  }

  lemma TextSnoc(v: nat, base: nat, upper: bool)
    requires 2 <= base <= 16
    ensures Text(v, base, upper) ==
            (if v < base then "" else Text(v / base, base, upper)) + [DigitChar(v % base, upper)]
  {
    if v < base {
      assert v % base == v;
    }
  }

  /** The digits are read back as the number. */
  lemma {:induction false} TextParses(v: nat, base: nat, upper: bool)
    requires 2 <= base <= 16
    ensures ParseNat(Text(v, base, upper), base) == v
    decreases v
  {
    TextSnoc(v, base, upper);
    DigitCharParses(v % base, upper);
    Divide(v, base);
    if v >= base {
      Shrinks(v, base);
      TextParses(v / base, base, upper);
      FoldSnoc(Text(v / base, base, upper), DigitChar(v % base, upper), AppendDigit(base));
    } else {
      FoldSnoc("", DigitChar(v % base, upper), AppendDigit(base));
    }
  }

  lemma Shrinks(v: nat, base: nat)
    requires 2 <= base <= v
    ensures 0 < v / base < v
  {
  }

  /** They start with a zero only for zero itself, and with no sign or space. */
  lemma {:induction false} TextLeads(v: nat, base: nat, upper: bool)
    requires 2 <= base <= 16
    ensures var c := Text(v, base, upper)[0]; c != ' ' && c != '-' && (c == '0' <==> v == 0)
    decreases v
  {
    if v >= base {
      Shrinks(v, base);
      TextLeads(v / base, base, upper);
      TextSnoc(v, base, upper);
    } else {
      DigitCharParses(v, upper);
    }
  }

  lemma {:induction false} FoldZeros(k: int, s: string, f: (nat, char) -> nat)
    requires f(0, '0') == 0
    ensures Fold(Repeat('0', k) + s, f) == Fold(s, f)
    decreases |s|, k
  {
    if s != "" {
      var init, c := s[..|s| - 1], s[|s| - 1];
      FoldZeros(k, init, f);
      FoldSnoc(Repeat('0', k) + init, c, f);
      assert Repeat('0', k) + s == Repeat('0', k) + init + [c];
    } else if k > 0 {
      FoldZeros(k - 1, "", f);
      FoldSnoc(Repeat('0', k - 1), '0', f);
      assert Repeat('0', k - 1) + "" == Repeat('0', k - 1);
      assert Repeat('0', k) + "" == Repeat('0', k - 1) + ['0'];
    } else {
      assert Repeat('0', k) + "" == "";
    }
  }

  lemma {:induction false} SpacesParse(k: int, s: string, base: nat)
    ensures Parse(Repeat(' ', k) + s, base) == Parse(s, base)
  {
    if k > 0 {
      SpacesParse(k - 1, s, base);
      assert (Repeat(' ', k) + s)[1..] == Repeat(' ', k - 1) + s;
    } else {
      assert Repeat(' ', k) + s == s;
    }
  }

  function Signed(negative: bool, n: nat): int {
    if negative then 0 - n else n
  }

  lemma SignParses(sign: string, negative: bool, body: string, base: nat)
    requires sign == if negative then "-" else ""
    requires body != "" && body[0] != ' ' && body[0] != '-'
    ensures Parse(sign + body, base) == Signed(negative, ParseNat(body, base))
  {
    if negative {
      assert (sign + body)[1..] == body;
    } else {
      assert sign + body == body;
    }
  }

  /** Zeros between the sign and the digits do not change the number that is read. */
  lemma ZeroPadParses(sign: string, negative: bool, text: string, pad: int, base: nat)
    requires sign == if negative then "-" else ""
    requires text != "" && text[0] != ' ' && text[0] != '-'
    ensures Parse(sign + Repeat('0', pad) + text, base) == Signed(negative, ParseNat(text, base))
  {
    var zeros := Repeat('0', pad);
    assert sign + zeros + text == sign + (zeros + text);
    FoldZeros(pad, text, AppendDigit(base));
    assert (zeros + text)[0] == if pad > 0 then zeros[0] else text[0];
    SignParses(sign, negative, zeros + text, base);
  }

  /** Nor do spaces before the sign. */
  lemma SpacePadParses(sign: string, negative: bool, text: string, pad: int, base: nat)
    requires sign == if negative then "-" else ""
    requires text != "" && text[0] != ' ' && text[0] != '-'
    ensures Parse(Repeat(' ', pad) + sign + text, base) == Signed(negative, ParseNat(text, base))
  {
    SpacesParse(pad, sign + text, base);
    SignParses(sign, negative, text, base);
    assert Repeat(' ', pad) + sign + text == Repeat(' ', pad) + (sign + text);
  }

  /** Printing a number and reading it back gives the number, sign included, for
      every word, base, width and padding. */
  lemma RenderParses(v: u32, base: nat, signed: bool, zero: bool, width: int, upper: bool)
    requires 2 <= base <= 16
    ensures Parse(Render(v, base, signed, zero, width, upper), base) == Value(v, signed)
  {
    var negative, m := Negative(v, signed), Magnitude(v, signed);
    var sign, text := if negative then "-" else "", Text(m, base, upper);
    var pad := width - |sign| - |text|;
    TextParses(m, base, upper);
    TextLeads(m, base, upper);
    if zero {
      ZeroPadParses(sign, negative, text, pad, base);
    } else {
      SpacePadParses(sign, negative, text, pad, base);
    }
  }

  /** The text is as wide as asked for, or as wide as the number needs. */
  lemma RenderWidth(v: u32, base: nat, signed: bool, zero: bool, width: int, upper: bool)
    requires 2 <= base <= 16
    ensures |Render(v, base, signed, zero, width, upper)| ==
            Max(width, (if Negative(v, signed) then 1 else 0) + |Text(Magnitude(v, signed), base, upper)|)
  {
  }

  // ----- how it looks -------------------------------------------------------

  /** `r` is the sign and the text, filled up to the width: with zeros behind the sign
      or with spaces before it. */
  ghost predicate Padded(r: string, sign: string, text: string, zero: bool, width: int) {
    var pad := Max(width - |sign| - |text|, 0);
    && |r| == |sign| + pad + |text| && r[|r| - |text|..] == text
    && if zero then r[..|sign|] == sign && forall i :: |sign| <= i < |sign| + pad ==> r[i] == '0'
       else r[pad..] == sign + text && forall i :: 0 <= i < pad ==> r[i] == ' '
  }

  /** Letters are capitals, or small. */
  predicate Cased(s: string, upper: bool) {
    forall i :: 0 <= i < |s| ==> if upper then !('a' <= s[i] <= 'z') else !('A' <= s[i] <= 'Z')
  }

  lemma {:induction false} TextCased(v: nat, base: nat, upper: bool)
    requires 2 <= base <= 16
    ensures Cased(Text(v, base, upper), upper)
    decreases v
  {
    if v >= base {
      Shrinks(v, base);
      TextCased(v / base, base, upper);
    }
  }

  lemma PaddedZeros(sign: string, text: string, width: int)
    ensures Padded(sign + Repeat('0', width - |sign| - |text|) + text, sign, text, true, width)
  {
    var zeros := Repeat('0', width - |sign| - |text|);
    var r := sign + zeros + text;
    assert r[|sign| + |zeros|..] == text && r[..|sign|] == sign;
    assert forall i :: |sign| <= i < |sign| + |zeros| ==> r[i] == zeros[i - |sign|];
  }

  lemma PaddedSpaces(sign: string, text: string, width: int)
    ensures Padded(Repeat(' ', width - |sign| - |text|) + sign + text, sign, text, false, width)
  {
    var spaces := Repeat(' ', width - |sign| - |text|);
    var r := spaces + sign + text;
    assert r == spaces + (sign + text);
    assert r[|spaces| + |sign|..] == text && r[|spaces|..] == sign + text;
  }

  lemma RepeatCased(c: char, k: int, upper: bool)
    requires c == '0' || c == ' '
    ensures Cased(Repeat(c, k), upper)
  {
  }

  lemma CasedConcat(a: string, b: string, c: string, upper: bool)
    requires Cased(a, upper) && Cased(b, upper) && Cased(c, upper)
    ensures Cased(a + b + c, upper)
  {
  }

  /** The layout of a printed number. */
  lemma RenderLayout(v: u32, base: nat, signed: bool, zero: bool, width: int, upper: bool)
    requires 2 <= base <= 16
    ensures var r := Render(v, base, signed, zero, width, upper);
            && Padded(r, if Negative(v, signed) then "-" else "", Text(Magnitude(v, signed), base, upper), zero, width)
            && Cased(r, upper)
  {
    var sign := if Negative(v, signed) then "-" else "";
    var text := Text(Magnitude(v, signed), base, upper);
    var pad := width - |sign| - |text|;
    TextCased(Magnitude(v, signed), base, upper);
    RepeatCased(if zero then '0' else ' ', pad, upper);
    if zero {
      PaddedZeros(sign, text, width);
      CasedConcat(sign, Repeat('0', pad), text, upper);
    } else {
      PaddedSpaces(sign, text, width);
      CasedConcat(Repeat(' ', pad), sign, text, upper);
    }
  }

  // ----- printing place by place ------------------------------------------

  /** The number without its `k` lowest places. */
  function High(v: nat, base: nat, k: nat): nat
    requires base > 0
  {
    v / Pow(base, k)
  }

  lemma HighStep(v: nat, base: nat, k: nat)
    requires base > 0
    ensures Pow(base, k + 1) == Pow(base, k) * base
    ensures High(v, base, k + 1) == High(v, base, k) / base
  {
    DivideTwice(v, Pow(base, k), base);
  }

  /** The digits above place `k`. */
  function Printed(v: nat, base: nat, k: nat, upper: bool): string
    requires 2 <= base <= 16
  {
    if High(v, base, k) == 0 && k > 0 then "" else Text(High(v, base, k), base, upper)
  }

  /** Printing the digit at place `k`. */
  lemma PrintedStep(v: nat, base: nat, k: nat, upper: bool)
    requires 2 <= base <= 16 && (High(v, base, k) > 0 || k == 0)
    ensures Printed(v, base, k, upper)
         == Printed(v, base, k + 1, upper) + [DigitChar(High(v, base, k) % base, upper)]
  {
    HighStep(v, base, k);
    TextSnoc(High(v, base, k), base, upper);
    BelowBase(High(v, base, k), base);
  }

  lemma BelowBase(h: nat, base: nat)
    requires base > 0
    ensures h / base == 0 <==> h < base
  {
  }
}
