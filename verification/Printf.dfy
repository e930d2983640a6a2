/** The two printf format interpreters.  A C string is the sequence of its
    characters before the terminating NUL; the variable arguments are a list of
    words and strings, and fetching one that is missing or of the other kind reads
    as 0 or as the empty string. */
module Printf {
  import opened Words
  import opened Digits
  import HexPrinter
  import IntegerPrinter

  datatype Arg = Word(value: u32) | Str(text: string)

  function WordArg(args: seq<Arg>): u32 {
    if args != [] && args[0].Word? then args[0].value else 0
  }

  function StrArg(args: seq<Arg>): string {
    if args != [] && args[0].Str? then args[0].text else ""
  }

  function Rest(args: seq<Arg>): seq<Arg> {
    if args == [] then [] else args[1..]
  }

  /** The character a word is put out as. */
  function LowByte(v: u32): char {
    (v % 256) as char
  }

  // ----- the small printf --------------------------------------------------

  /** What the small printf puts out for the character after a percent sign: it
      knows %c, %x, %s and %% and drops any other. */
  function SmallConvert(c: char, args: seq<Arg>): string {
    if c == '%' then "%"
    else if c == 'c' then [LowByte(WordArg(args))]
    else if c == 'x' then Text(WordArg(args), 16, false)
    else if c == 's' then StrArg(args)
    else ""
  }

  function SmallRest(c: char, args: seq<Arg>): seq<Arg> {
    if c in "cxs" then Rest(args) else args
  }

  function SmallOutput(fmt: string, args: seq<Arg>): string
    decreases |fmt|
  {
    if fmt == "" then ""
    else if fmt[0] != '%' then [fmt[0]] + SmallOutput(fmt[1..], args)
    else if |fmt| == 1 then ""
    else SmallConvert(fmt[1], args) + SmallOutput(fmt[2..], SmallRest(fmt[1], args))
  }

  method PrintSmall(c: char, args: seq<Arg>) returns (out: string, rest: seq<Arg>)
    ensures out == SmallConvert(c, args) && rest == SmallRest(c, args)
  {
    out, rest := "", args;
    if c == '%' {
      out := [c];
    } else if c == 'c' {
      out := [LowByte(WordArg(args))];
      rest := Rest(args);
    } else if c == 'x' {
      out := HexPrinter.PrintHex(WordArg(args));
      rest := Rest(args);
    } else if c == 's' {
      out := StrArg(args);
      rest := Rest(args);
    }
  }

  lemma SmallStep(fmt: string, w: nat, args: seq<Arg>)
    requires w < |fmt|
    ensures SmallOutput(fmt[w..], args) ==
            if fmt[w] != '%' then [fmt[w]] + SmallOutput(fmt[w + 1..], args)
            else if w + 1 == |fmt| then ""
            else SmallConvert(fmt[w + 1], args) + SmallOutput(fmt[w + 2..], SmallRest(fmt[w + 1], args))
  {
    assert fmt[w..][1..] == fmt[w + 1..];
    if w + 1 < |fmt| {
      assert fmt[w..][2..] == fmt[w + 2..];
    }
  }

  /** One character of the format, or two: what is put out and where to go on. */
  method SmallNext(fmt: string, w: nat, args: seq<Arg>) returns (out: string, next: nat, rest: seq<Arg>)
    requires w < |fmt|
    ensures w < next <= |fmt|
    ensures SmallOutput(fmt[w..], args) == out + SmallOutput(fmt[next..], rest)
  {
    SmallStep(fmt, w, args);
    var c := fmt[w];
    next := w + 1;
    if c != '%' {
      out, rest := [c], args;
    } else if next < |fmt| {
      c := fmt[next];
      next := next + 1;
      out, rest := PrintSmall(c, args);
    } else {
      out, rest := "", args;
    }
  }

  method SmallPrintf(fmt: string, args: seq<Arg>) returns (out: string)
    ensures out == SmallOutput(fmt, args)
  {
    out := "";
    var w, rest := 0, args;
    while w < |fmt|
      invariant w <= |fmt|
      invariant SmallOutput(fmt, args) == out + SmallOutput(fmt[w..], rest)
    {
      var put;
      put, w, rest := SmallNext(fmt, w, rest);
      out := out + put;
    }
  }

  /** Text without percent signs is put out as it is. */
  lemma {:induction false} SmallTextUnchanged(text: string, rest: string, args: seq<Arg>)
    requires '%' !in text
    ensures SmallOutput(text + rest, args) == text + SmallOutput(rest, args)
    decreases |text|
  {
    if text == "" {
      assert text + rest == rest;
    } else {
      assert (text + rest)[0] == text[0] && (text + rest)[1..] == text[1..] + rest;
      SmallTextUnchanged(text[1..], rest, args);
      assert [text[0]] + (text[1..] + SmallOutput(rest, args)) == text + SmallOutput(rest, args);
    }
  }

  /** A hexadecimal conversion puts out small digits that read back as the word, with a
      leading zero for zero only; a letter the small printf does not know puts out
      nothing and takes no argument. */
  lemma SmallMeaning(c: char, v: u32, args: seq<Arg>)
    ensures var digits := SmallConvert('x', [Word(v)] + args);
            && ParseNat(digits, 16) == v && digits != "" && (digits[0] == '0' <==> v == 0) && Cased(digits, false)
            && SmallRest('x', [Word(v)] + args) == args
    ensures c !in "%cxs" ==> SmallConvert(c, args) == "" && SmallRest(c, args) == args
  {
    TextParses(v, 16, false);
    TextLeads(v, 16, false);
    TextCased(v, 16, false);
  }

  // ----- the logging printf -------------------------------------------------

  /** What has been read of a conversion: zero padding, the width and, once a
      point was seen, the digits after it (-1 for absent). */
  datatype Spec = Spec(zero: bool, before: int, after: int)

  datatype State = Chars | FirstFmtChar(spec: Spec) | OtherFmtChar(spec: Spec)

  /** A digit, a point or a length letter extends the conversion. */
  predicate Extends(c: char) {
    c == '.' || '0' <= c <= '9' || c == 'l'
  }

  function Extend(spec: Spec, c: char): Spec
    requires Extends(c)
  {
    if c == '.' then spec.(after := 0)
    else if c == 'l' then spec
    else if spec.after < 0 then
      spec.(before := (if spec.before < 0 then 0 else spec.before * 10) + c as int - 48)
    else spec.(after := spec.after * 10 + c as int - 48)
  }

  /** What a conversion letter puts out. */
  function Convert(spec: Spec, c: char, args: seq<Arg>): string {
    if c == 'd' || c == 'i' then Render(WordArg(args), 10, true, spec.zero, spec.before, false)
    else if c == 'u' then Render(WordArg(args), 10, false, spec.zero, spec.before, false)
    else if c == 'o' then Render(WordArg(args), 8, false, spec.zero, spec.before, false)
    else if c == 'x' then Render(WordArg(args), 16, false, spec.zero, spec.before, false)
    else if c == 'X' then Render(WordArg(args), 16, false, spec.zero, spec.before, true)
    else if c == 'c' then Repeat(' ', spec.before - 1) + [LowByte(WordArg(args))]
    else if c == 's' then Repeat(' ', spec.before - |StrArg(args)|) + StrArg(args)
    else ""
  }

  predicate TakesArg(c: char) {
    c in "diuoxXcs"
  }

  const Fresh := Spec(false, -1, -1)

  /** What the logging printf puts out from a state of its automaton on. */
  function LogOutput(state: State, fmt: string, args: seq<Arg>): string
    decreases |fmt|, 0
  {
    if fmt == "" then ""
    else
      var c, rest := fmt[0], fmt[1..];
      match state
      case Chars =>
        if c == '%' then LogOutput(FirstFmtChar(Fresh), rest, args)
        else [c] + LogOutput(Chars, rest, args)
      case FirstFmtChar(spec) =>
        if c == '0' then LogOutput(OtherFmtChar(spec.(zero := true)), rest, args)
        else if c == '%' then [c] + LogOutput(Chars, rest, args)
        else LogConversion(spec, c, rest, args)
      case OtherFmtChar(spec) =>
        LogConversion(spec, c, rest, args)
  }

  function LogConversion(spec: Spec, c: char, fmt: string, args: seq<Arg>): string
    decreases |fmt|, 1
  {
    if Extends(c) then LogOutput(OtherFmtChar(Extend(spec, c)), fmt, args)
    else Convert(spec, c, args) + LogOutput(Chars, fmt, if TakesArg(c) then Rest(args) else args)
  }

  /** Put out one conversion. */
  method PrintConversion(spec: Spec, c: char, args: seq<Arg>) returns (out: string, rest: seq<Arg>)
    ensures out == Convert(spec, c, args)
    ensures rest == if TakesArg(c) then Rest(args) else args
  {
    var fmtBase, fmtSigned, fmtCase := 10, true, false;
    out, rest := "", args;
    match c
    case 'd' | 'i' | 'u' | 'o' | 'x' | 'X' =>
      if c == 'u' {
        fmtSigned := false;
      } else if c == 'o' {
        fmtSigned, fmtBase := false, 8;
      } else if c == 'x' {
        fmtSigned, fmtBase := false, 16;
      } else if c == 'X' {
        fmtSigned, fmtBase, fmtCase := false, 16, true;
      }
      out := IntegerPrinter.PrintInteger(WordArg(args), fmtBase, fmtSigned, spec.zero, spec.before, fmtCase);
      rest := Rest(args);
    case 'c' =>
      out := Repeat(' ', spec.before - 1) + [LowByte(WordArg(args))];
      rest := Rest(args);
    case 's' =>
      out := Repeat(' ', spec.before - |StrArg(args)|) + StrArg(args);
      rest := Rest(args);
    case _ =>
  }

  /** One character of the format: what it puts out and the state it leads to. */
  method LogStep(state: State, c: char, args: seq<Arg>)
    returns (out: string, state': State, args': seq<Arg>)
    ensures forall tail: string ::
              LogOutput(state, [c] + tail, args) == out + LogOutput(state', tail, args')
  {
    out, state', args' := "", state, args;
    match state {
      case Chars =>
        if c == '%' {
          state' := FirstFmtChar(Fresh);
        } else {
          out := [c];
        }
      case FirstFmtChar(spec) =>
        if c == '0' {
          state' := OtherFmtChar(spec.(zero := true));
        } else if c == '%' {
          out, state' := [c], Chars;
        } else if Extends(c) {
          state' := OtherFmtChar(Extend(spec, c));
        } else {
          out, args' := PrintConversion(spec, c, args);
          state' := Chars;
        }
      case OtherFmtChar(spec) =>
        if Extends(c) {
          state' := OtherFmtChar(Extend(spec, c));
        } else {
          out, args' := PrintConversion(spec, c, args);
          state' := Chars;
        }
    }
    forall tail: string
      ensures LogOutput(state, [c] + tail, args) == out + LogOutput(state', tail, args')
    {
      assert ([c] + tail)[1..] == tail;
    }
  }

  method LogPrintf(fmt: string, args: seq<Arg>) returns (out: string)
    ensures out == LogOutput(Chars, fmt, args)
  {
    out := "";
    var state, rest := Chars, args;
    for w := 0 to |fmt|
      invariant LogOutput(Chars, fmt, args) == out + LogOutput(state, fmt[w..], rest)
    {
      assert fmt[w..] == [fmt[w]] + fmt[w + 1..];
      var put;
      put, state, rest := LogStep(state, fmt[w], rest);
      out := out + put;
    }
  }

  // ----- what the logging printf means -----------------------------------------

  /** The conversions of words: the base each prints in and whether it is signed. */
  function Base(c: char): nat {
    if c == 'o' then 8 else if c == 'x' || c == 'X' then 16 else 10
  }

  lemma WordConversion(spec: Spec, c: char, v: u32)
    requires c in "diuoxX"
    ensures Convert(spec, c, [Word(v)]) == Render(v, Base(c), c == 'd' || c == 'i', spec.zero, spec.before, c == 'X')
  {
  }

  /** Every conversion of a word reads back as the word: d and i as a signed number in
      decimal, u in decimal, o in octal, x and X in hexadecimal, for any width and
      padding. */
  lemma ConvertParses(spec: Spec, c: char, v: u32)
    ensures c == 'd' || c == 'i' ==> Parse(Convert(spec, c, [Word(v)]), 10) == Value(v, true)
    ensures c == 'u' ==> Parse(Convert(spec, c, [Word(v)]), 10) == v
    ensures c == 'o' ==> Parse(Convert(spec, c, [Word(v)]), 8) == v
    ensures c == 'x' || c == 'X' ==> Parse(Convert(spec, c, [Word(v)]), 16) == v
  {
    if c in "diuoxX" {
      WordConversion(spec, c, v);
      RenderParses(v, Base(c), c == 'd' || c == 'i', spec.zero, spec.before, c == 'X');
    }
  }

  /** Their padding and width are those asked for, and the letters of X are capitals
      while those of x are small. */
  lemma ConvertLooks(spec: Spec, c: char, v: u32)
    requires c in "diuoxX"
    ensures var signed := c == 'd' || c == 'i';
            Padded(Convert(spec, c, [Word(v)]), if Negative(v, signed) then "-" else "",
                   Text(Magnitude(v, signed), Base(c), c == 'X'), spec.zero, spec.before)
    ensures Cased(Convert(spec, c, [Word(v)]), c == 'X')
  {
    var signed := c == 'd' || c == 'i';
    RenderLayout(v, Base(c), signed, spec.zero, spec.before, c == 'X');
  }

  /** A character, the low byte of its word, or a string is put out after as many spaces
      as the width leaves; a letter that is no conversion puts out nothing. */
  lemma ConvertStrings(spec: Spec, v: u32, text: string, c: char, args: seq<Arg>)
    ensures Padded(Convert(spec, 'c', [Word(v)]), "", [(v % 256) as char], false, spec.before)
    ensures Padded(Convert(spec, 's', [Str(text)]), "", text, false, spec.before)
    ensures c !in "diuoxXcs" ==> Convert(spec, c, args) == ""
  {
    PaddedSpaces("", text, spec.before);
    PaddedSpaces("", [LowByte(v)], spec.before);
    assert Repeat(' ', spec.before - |text|) + "" == Repeat(' ', spec.before - |text|);
    assert Repeat(' ', spec.before - 1) + "" == Repeat(' ', spec.before - 1);
  }

  /** Text without percent signs is put out as it is. */
  lemma {:induction false} TextUnchanged(text: string, rest: string, args: seq<Arg>)
    requires '%' !in text
    ensures LogOutput(Chars, text + rest, args) == text + LogOutput(Chars, rest, args)
    decreases |text|
  {
    if text == "" {
      assert text + rest == rest;
    } else {
      assert (text + rest)[0] == text[0] && (text + rest)[1..] == text[1..] + rest;
      TextUnchanged(text[1..], rest, args);
      assert [text[0]] + (text[1..] + LogOutput(Chars, rest, args)) == text + LogOutput(Chars, rest, args);
    }
  }

  /** Two percent signs put out one. */
  lemma PercentItself(rest: string, args: seq<Arg>)
    ensures LogOutput(Chars, "%%" + rest, args) == "%" + LogOutput(Chars, rest, args)
  {
    Consume(Chars, '%', "%" + rest, args);
    Consume(FirstFmtChar(Fresh), '%', rest, args);
    assert "%%" + rest == ['%'] + ("%" + rest) && "%" + rest == ['%'] + rest;
  }

  /** One character of the format. */
  lemma Consume(state: State, c: char, rest: string, args: seq<Arg>)
    ensures LogOutput(state, [c] + rest, args) ==
            match state
            case Chars => if c == '%' then LogOutput(FirstFmtChar(Fresh), rest, args) else [c] + LogOutput(Chars, rest, args)
            case FirstFmtChar(spec) =>
              if c == '0' then LogOutput(OtherFmtChar(spec.(zero := true)), rest, args)
              else if c == '%' then [c] + LogOutput(Chars, rest, args)
              else LogConversion(spec, c, rest, args)
            case OtherFmtChar(spec) => LogConversion(spec, c, rest, args)
  {
    assert ([c] + rest)[0] == c && ([c] + rest)[1..] == rest;
  }

  predicate Digital(s: string) {
    forall i :: 0 <= i < |s| ==> '0' <= s[i] <= '9'
  }

  /** The width a run of digits stands for; -1 for none. */
  function WidthOf(digits: string): int {
    if digits == "" then -1 else ParseNat(digits, 10)
  }

  /** A run of digits before the point is read as the width, in decimal. */
  lemma {:induction false} WidthRead(zero: bool, digits: string, rest: string, args: seq<Arg>)
    requires Digital(digits)
    ensures LogOutput(OtherFmtChar(Spec(zero, -1, -1)), digits + rest, args)
         == LogOutput(OtherFmtChar(Spec(zero, WidthOf(digits), -1)), rest, args)
    decreases |digits|
  {
    if digits == "" {
      assert digits + rest == rest;
    } else {
      var init, c := digits[..|digits| - 1], digits[|digits| - 1];
      var spec := Spec(zero, WidthOf(init), -1);
      WidthRead(zero, init, [c] + rest, args);
      assert digits + rest == init + ([c] + rest) && digits == init + [c];
      Consume(OtherFmtChar(spec), c, rest, args);
      FoldSnoc(init, c, AppendDigit(10));
      assert Extend(spec, c).before == WidthOf(digits);
    }
  }

  /** Digits behind the point are read as the precision. */
  lemma {:induction false} PrecisionRead(spec: Spec, digits: string, tail: string, args: seq<Arg>) returns (after: int)
    requires Digital(digits) && spec.after >= 0
    ensures LogOutput(OtherFmtChar(spec), digits + tail, args) == LogOutput(OtherFmtChar(spec.(after := after)), tail, args)
    decreases |digits|
  {
    if digits == "" {
      assert digits + tail == tail;
      after := spec.after;
    } else {
      assert digits + tail == [digits[0]] + (digits[1..] + tail);
      Consume(OtherFmtChar(spec), digits[0], digits[1..] + tail, args);
      after := PrecisionRead(Extend(spec, digits[0]), digits[1..], tail, args);
    }
  }

  /** The parts of a conversion, each in front of what follows it. */
  function ZeroText(zero: bool, tail: string): string {
    if zero then ['0'] + tail else tail
  }

  function PrecisionText(precision: Option<string>, tail: string): string {
    match precision
    case None => tail
    case Some(digits) => ['.'] + (digits + tail)
  }

  function LongText(long: bool, tail: string): string {
    if long then ['l'] + tail else tail
  }

  /** A percent sign, a zero for zero padding, the width, a precision, a length letter,
      the letter of the conversion, and the rest of the format. */
  function Conversion(zero: bool, width: string, precision: Option<string>, long: bool, c: char, rest: string): string {
    ['%'] + ZeroText(zero, width + PrecisionText(precision, LongText(long, [c] + rest)))
  }

  /** A whole conversion puts out what its letter, padding and width say; precision and
      length letter are read and ignored. */
  lemma ConversionMeaning(zero: bool, width: string, precision: Option<string>, long: bool, c: char,
                          rest: string, args: seq<Arg>)
    requires Digital(width) && (precision.Some? ==> Digital(precision.value))
    requires c != '.' && c != 'l' && !('0' <= c <= '9')
    requires width != "" && !zero ==> width[0] != '0'
    requires c == '%' ==> zero || width != "" || precision.Some? || long
    ensures LogOutput(Chars, Conversion(zero, width, precision, long, c, rest), args)
         == Convert(Spec(zero, WidthOf(width), -1), c, args) + LogOutput(Chars, rest, if c in "diuoxXcs" then Rest(args) else args)
  {
    var later := PrecisionText(precision, LongText(long, [c] + rest));
    Consume(Chars, '%', ZeroText(zero, width + later), args);
    ZeroRead(zero, width + later, args);
    WidthRead(zero, width, later, args);
    SuffixRead(Spec(zero, WidthOf(width), -1), precision, long, c, rest, args);
  }

  /** After the percent sign: a zero sets the padding, any other character but a
      percent sign is treated as later ones are. */
  lemma ZeroRead(zero: bool, later: string, args: seq<Arg>)
    requires zero || (later != "" && later[0] != '0' && later[0] != '%')
    ensures LogOutput(FirstFmtChar(Fresh), ZeroText(zero, later), args)
         == LogOutput(OtherFmtChar(Spec(zero, -1, -1)), later, args)
  {
    if zero {
      Consume(FirstFmtChar(Fresh), '0', later, args);
    } else {
      assert later == [later[0]] + later[1..];
      Consume(FirstFmtChar(Fresh), later[0], later[1..], args);
      Consume(OtherFmtChar(Fresh), later[0], later[1..], args);
    }
  }

  /** The letter, whatever the precision. */
  lemma LetterRead(spec: Spec, after: int, c: char, rest: string, args: seq<Arg>)
    requires !Extends(c)
    ensures LogOutput(OtherFmtChar(spec.(after := after)), [c] + rest, args)
         == Convert(spec, c, args) + LogOutput(Chars, rest, if TakesArg(c) then Rest(args) else args)
  {
    Consume(OtherFmtChar(spec.(after := after)), c, rest, args);
  }

  lemma LongRead(spec: Spec, after: int, long: bool, c: char, rest: string, args: seq<Arg>)
    requires !Extends(c)
    ensures LogOutput(OtherFmtChar(spec.(after := after)), LongText(long, [c] + rest), args)
         == Convert(spec, c, args) + LogOutput(Chars, rest, if TakesArg(c) then Rest(args) else args)
  {
    LetterRead(spec, after, c, rest, args);
    if long {
      Consume(OtherFmtChar(spec.(after := after)), 'l', [c] + rest, args);
    }
  }

  /** From the width on: precision and length letter change nothing. */
  lemma SuffixRead(spec: Spec, precision: Option<string>, long: bool, c: char, rest: string, args: seq<Arg>)
    requires (precision.Some? ==> Digital(precision.value)) && !Extends(c)
    ensures LogOutput(OtherFmtChar(spec), PrecisionText(precision, LongText(long, [c] + rest)), args)
         == Convert(spec, c, args) + LogOutput(Chars, rest, if TakesArg(c) then Rest(args) else args)
  {
    var tail := LongText(long, [c] + rest);
    match precision
    case None =>
      LongRead(spec, spec.after, long, c, rest, args);
    case Some(digits) =>
      Consume(OtherFmtChar(spec), '.', digits + tail, args);
      var after := PrecisionRead(spec.(after := 0), digits, tail, args);
      LongRead(spec, after, long, c, rest, args);
  }

  // ----- the two agree --------------------------------------------------------

  /** The formats both printers interpret alike: nothing between a percent sign and
      the conversion, and no conversion the small printf lacks. */
  predicate Common(fmt: string)
    decreases |fmt|
  {
    if fmt == "" then true
    else if fmt[0] != '%' then Common(fmt[1..])
    else |fmt| == 1 || (!Extends(fmt[1]) && fmt[1] !in "diuoX" && Common(fmt[2..]))
  }

  /** Without a width the logging printf prints a word in hexadecimal as the small
      one does. */
  lemma HexAgrees(v: u32)
    ensures Render(v, 16, false, false, -1, false) == Text(v, 16, false)
  {
    assert Repeat(' ', -1 - |Text(v, 16, false)|) == "";
  }

  lemma ConvertAgrees(c: char, args: seq<Arg>)
    requires c !in "%diuoX"
    ensures Convert(Fresh, c, args) == SmallConvert(c, args)
    ensures TakesArg(c) <==> c in "cxs"
  {
    HexAgrees(WordArg(args));
    assert Repeat(' ', -2) + [LowByte(WordArg(args))] == [LowByte(WordArg(args))];
    assert Repeat(' ', -1 - |StrArg(args)|) + StrArg(args) == StrArg(args);
  }

  /** On every common format and all arguments the two printers put out the same
      text. */
  lemma {:induction false} PrintersAgree(fmt: string, args: seq<Arg>)
    requires Common(fmt)
    ensures SmallOutput(fmt, args) == LogOutput(Chars, fmt, args)
    decreases |fmt|
  {
    if fmt == "" {
    } else if fmt[0] != '%' {
      PrintersAgree(fmt[1..], args);
    } else if |fmt| > 1 {
      var c := fmt[1];
      PrintersAgree(fmt[2..], SmallRest(c, args));
      assert fmt[1..][1..] == fmt[2..] && fmt[1..][0] == c;
      assert LogOutput(Chars, fmt, args) == LogOutput(FirstFmtChar(Fresh), fmt[1..], args);
      if c != '%' {
        ConvertAgrees(c, args);
        assert LogOutput(FirstFmtChar(Fresh), fmt[1..], args)
            == Convert(Fresh, c, args) + LogOutput(Chars, fmt[2..], SmallRest(c, args));
      }
    }
  }
}
