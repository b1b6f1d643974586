/** Formatted printing, common/libc/printf: the character-driven machine of __printf.c and the bounded buffer of
    snprintf.c. */
module Printf {
  import opened Basics
  import opened Numerals

  const NUMBER_BUF_SIZE: nat := 64 / 3 + 2

  const WORD: nat := 0x1_0000_0000
  const QUAD: nat := 0x1_0000_0000_0000_0000

  /** The variable arguments: the bits of argument `k`, and the string it points to, if it is used as one. */
  datatype Args = Args(bits: nat -> int, text: nat -> Option<string>)

  datatype Size = INTSZ | LONGSZ | LLONGSZ | SIZETSZ

  /** The state of the machine between characters. `next` is the next argument. */
  datatype Pf = Pf(
    inPct: bool, size: Size, num: nat, sign: bool, spacing: nat, rightspc: bool, fillchar: char, base: nat,
    baseprefix: bool, altformat: bool, next: nat)

  function EndField(next: nat): Pf {
    Pf(false, INTSZ, 0, false, 0, false, ' ', 0, false, false, next)
  }

  function Unsigned(x: int, size: Size): nat {
    if size == LLONGSZ then x % QUAD else x % WORD
  }

  function Signed(x: int, size: Size): int {
    var u, m := Unsigned(x, size), if size == LLONGSZ then QUAD else WORD;
    if u < m / 2 then u else u - m
  }

  predicate IsModifier(ch: char) {
    ch in "#-lz0123456789"
  }

  predicate IsInteger(ch: char) {
    ch in "doupx"
  }

  function Modifier(pf: Pf, ch: char): Pf
    requires IsModifier(ch)
  {
    if ch == '#' then pf.(altformat := true)
    else if ch == '-' then pf.(rightspc := true)
    else if ch == 'l' then pf.(size := if pf.size == LONGSZ then LLONGSZ else LONGSZ)
    else if ch == 'z' then pf.(size := SIZETSZ)
    else if ch == '0' then if pf.spacing > 0 then pf.(spacing := pf.spacing * 10) else pf.(fillchar := '0')
    else pf.(spacing := pf.spacing * 10 + (ch - '0') as nat)
  }

  /** The argument as a magnitude and a sign. */
  function GetNum(pf: Pf, ch: char, args: Args): Pf {
    var x := args.bits(pf.next);
    var pf' := pf.(next := pf.next + 1);
    if ch == 'p' then pf'.(num := x % WORD)
    else if ch == 'd' then
      var n := Signed(x, pf.size);
      if n < 0 then pf'.(sign := true, num := -n) else pf'.(num := n)
    else pf'.(num := Unsigned(x, pf.size))
  }

  function SetBase(pf: Pf, ch: char): Pf
    requires IsInteger(ch)
  {
    pf.(base := if ch == 'd' || ch == 'u' then 10 else if ch == 'o' then 8 else 16,
        baseprefix := pf.baseprefix || pf.altformat || ch == 'p')
  }

  function Repeat(c: char, n: nat): (s: string)
    ensures |s| == n && forall i :: 0 <= i < n ==> s[i] == c
  {
    if n == 0 then [] else Repeat(c, n - 1) + [c]
  }

  /** A field: padding goes before the prefix, or between prefix and text if it is zeros, or after. */
  function Field(pf: Pf, prefix: string, stuff: string): string {
    var len := |prefix| + |stuff|;
    var pad := Repeat(pf.fillchar, if pf.spacing > len then pf.spacing - len else 0);
    if pf.rightspc then prefix + stuff + pad
    else if pf.fillchar == '0' then prefix + pad + stuff
    else pad + prefix + stuff
  }

  /** A field is at least as wide as asked, and no wider than it has to be; its text is all there. */
  lemma FieldWidth(pf: Pf, prefix: string, stuff: string)
    ensures var f, len := Field(pf, prefix, stuff), |prefix| + |stuff|;
      |f| == (if pf.spacing > len then pf.spacing else len) &&
      (pf.rightspc ==> f[..len] == prefix + stuff) && (!pf.rightspc ==> f[|f| - |stuff|..] == stuff) &&
      (!pf.rightspc && pf.fillchar == '0' ==> f[..|prefix|] == prefix) &&
      (!pf.rightspc && pf.fillchar != '0' ==> f[|f| - len..] == prefix + stuff)
  {
  }

  function Prefix(pf: Pf): string {
    (if pf.sign then "-" else "") +
    (if pf.baseprefix && pf.base == 16 then "0x" else if pf.baseprefix && pf.base == 8 then "0" else "")
  }

  /** What one character of the format sends, and the state after it. */
  function Feed(pf: Pf, ch: char, args: Args): (string, Pf) {
    if !pf.inPct then if ch != '%' then ([ch], pf) else ("", pf.(inPct := true))
    else if IsModifier(ch) then ("", Modifier(pf, ch))
    else if IsInteger(ch) then
      var pf' := SetBase(GetNum(pf, ch, args), ch);
      (Field(pf', Prefix(pf'), Numeral(pf'.num, pf'.base)), EndField(pf'.next))
    else if ch == 's' then (Field(pf, "", StringOf(args.text(pf.next))), EndField(pf.next + 1))
    else if ch == 'c' then (Field(pf, "", CharOf(args.bits(pf.next))), EndField(pf.next + 1))
    else (Field(pf, "", [ch]), EndField(pf.next))
  }

  /** A one-character string, which is empty when the character is NUL. */
  function CharOf(x: int): string {
    if x % 256 == 0 then "" else [(x % 256) as char]
  }

  function StringOf(s: Option<string>): string {
    match s
    case Some(t) => t
    case None => "(null)"
  }

  /** The whole text a format stands for. */
  function Format(pf: Pf, fmt: string, args: Args): string
    decreases |fmt|
  {
    if fmt == [] then []
    else
      var (out, pf') := Feed(pf, fmt[0], args);
      out + Format(pf', fmt[1..], args)
  }

  function Output(fmt: string, args: Args): string {
    Format(EndField(0), fmt, args)
  }

  // ---------------------------------------------------------------------------------------
  // The bounded buffer
  // ---------------------------------------------------------------------------------------

  function Min(a: nat, b: nat): nat {
    if a < b then a else b
  }

  /** The context of `snprintf`. `text` is everything it has been sent, `original` the buffer as it was. */
  class Snp {
    const buf: array<char>
    const buflen: nat
    var bufpos: nat
    ghost var text: string
    ghost const original: string

    ghost predicate Valid()
      reads this, buf
    {
      |original| == buf.Length && buflen <= buf.Length && bufpos == Min(|text|, buflen) &&
      buf[..] == text[..bufpos] + original[bufpos..]
    }

    constructor (buf: array<char>, buflen: nat)
      requires buflen <= buf.Length
      ensures Valid() && text == "" && this.buf == buf && this.buflen == buflen && original == buf[..]
    {
      this.buf, this.buflen, bufpos, text, original := buf, buflen, 0, "", buf[..];
    }

    /** `__snprintf_send`: characters beyond the length are dropped. */
    method Send(data: string)
      requires Valid()
      modifies this, buf
      ensures Valid() && text == old(text) + data
    {
      var i := 0;
      while i < |data|
        invariant 0 <= i <= |data| && Valid() && text == old(text) + data[..i]
      {
        assert data[..i + 1] == data[..i] + [data[i]];
        if bufpos < buflen {
          StoreOne(text, original, bufpos, data[i], buf[..]);
          buf[bufpos] := data[i];
          bufpos := bufpos + 1;
        }
        text := text + [data[i]];
        i := i + 1;
      }
    }
  }

  lemma StoreOne(text: string, original: string, n: nat, c: char, buf: string)
    requires n == |text| < |original| && buf == text[..n] + original[n..]
    ensures buf[n := c] == (text + [c])[..n + 1] + original[n + 1..]
  {
  }

  // ---------------------------------------------------------------------------------------
  // The printer
  // ---------------------------------------------------------------------------------------

  /** What is still to be written of the number. */
  function Left(xnum: nat, base: nat, more: bool): string
    requires 2 <= base <= 16
  {
    if more then Numeral(xnum, base) else []
  }

  /** One round of the digit loop. */
  lemma DigitRound(xnum: nat, base: nat, rest: string)
    requires 2 <= base <= 16
    ensures 0 <= xnum % base < base && xnum / base >= 0 && (xnum / base > 0 ==> xnum / base < xnum)
    ensures Left(xnum, base, true) + rest == Left(xnum / base, base, xnum / base > 0) + ([DIGITS[xnum % base]] + rest)
  {
    NumeralStep(xnum, base);
  }

  /** The digits of a number, written from the right into a buffer that is never too small. */
  method DigitsOf(num: nat, base: nat) returns (text: string)
    requires num < QUAD && 8 <= base <= 16
    ensures text == Numeral(num, base)
  {
    hide Numeral, Left;
    var buf := new char[NUMBER_BUF_SIZE];
    var x: int := NUMBER_BUF_SIZE - 1;
    buf[x] := '\0';
    x := x - 1;
    var xnum: nat, more := num, true;
    FitsBuffer(num, base);
    while more
      invariant -1 <= x <= NUMBER_BUF_SIZE - 2
      invariant Numeral(num, base) == Left(xnum, base, more) + buf[x + 1..NUMBER_BUF_SIZE - 1]
      decreases more, xnum
    {
      ghost var rest := buf[x + 1..NUMBER_BUF_SIZE - 1];
      DigitRound(xnum, base, rest);
      LeftLength(xnum, base);
      buf[x] := DIGITS[xnum % base];
      assert buf[x..NUMBER_BUF_SIZE - 1] == [DIGITS[xnum % base]] + rest;
      x := x - 1;
      xnum := xnum / base;
      more := xnum > 0;
    }
    x := x + 1;
    text := buf[x..NUMBER_BUF_SIZE - 1];
    NothingLeft(xnum, base);
  }

  lemma FitsBuffer(num: nat, base: nat)
    requires num < QUAD && 8 <= base <= 16
    ensures |Numeral(num, base)| <= NUMBER_BUF_SIZE - 1 && Left(num, base, true) == Numeral(num, base)
  {
    OctalDigits();
    NumeralLength(num, base, 22);
  }

  lemma LeftLength(xnum: nat, base: nat)
    requires 2 <= base <= 16
    ensures |Left(xnum, base, true)| >= 1
  {
  }

  lemma NothingLeft(xnum: nat, base: nat)
    requires 2 <= base <= 16
    ensures Left(xnum, base, false) == []
  {
  }

  /** The buffer could not be one character smaller: some number needs all of it. */
  lemma BufferTight()
    ensures exists n: nat :: n < QUAD && |Numeral(n, 8)| == NUMBER_BUF_SIZE - 1
  {
    OctalDigits();
    assert 0xffff_ffff_ffff_ffff < QUAD;
  }

  lemma NumRange(pf: Pf, ch: char, args: Args)
    requires IsInteger(ch)
    ensures var pf' := SetBase(GetNum(pf, ch, args), ch);
      pf'.num < QUAD && (pf'.base == 8 || pf'.base == 10 || pf'.base == 16)
  {
  }

  function Assembled(t: string, before: string, prefix: string, prefix2: string, between: string, stuff: string,
                     after: string): string {
    t + before + prefix + prefix2 + between + stuff + after
  }

  /** The pieces in the order they are printed. */
  lemma FieldParts(pf: Pf, prefix: string, prefix2: string, stuff: string, t: string)
    ensures var len := |prefix| + |prefix2| + |stuff|;
      var pad := Repeat(pf.fillchar, if pf.spacing > len then pf.spacing - len else 0);
      t + Field(pf, prefix + prefix2, stuff)
      == Assembled(t, if !pf.rightspc && pf.fillchar != '0' then pad else "", prefix, prefix2,
                   if !pf.rightspc && pf.fillchar == '0' then pad else "", stuff, if pf.rightspc then pad else "")
    ensures Repeat(pf.fillchar, 0) == ""
  {
  }

  lemma Terminate(text: string, original: string, n: nat)
    requires n <= |text| && n < |original|
    ensures (text[..n] + original[n..])[n := '\0'] == text[..n] + ['\0'] + original[n + 1..]
  {
  }

  /** The state of `__vprintf`, printing into a bounded buffer. */
  class Printer {
    const sink: Snp
    const args: Args
    var pf: Pf
    var charcount: nat

    ghost predicate Valid()
      reads this, sink, sink.buf
    {
      sink.Valid() && charcount == |sink.text|
    }

    constructor (sink: Snp, args: Args)
      requires sink.Valid() && sink.text == ""
      ensures Valid() && pf == EndField(0) && this.sink == sink && this.args == args
    {
      this.sink, this.args, pf, charcount := sink, args, EndField(0), 0;
    }

    /** `__pf_print` */
    method Print(txt: string)
      requires Valid()
      modifies this`charcount, sink, sink.buf
      ensures Valid() && sink.text == old(sink.text) + txt
    {
      sink.Send(txt);
      charcount := charcount + |txt|;
    }

    /** `__pf_fill` */
    method Fill(spc: nat)
      requires Valid()
      modifies this`charcount, sink, sink.buf
      ensures Valid() && sink.text == old(sink.text) + Repeat(pf.fillchar, spc)
    {
      var f := pf.fillchar;
      var i := 0;
      while i < spc
        invariant 0 <= i <= spc && Valid() && sink.text == old(sink.text) + Repeat(f, i)
      {
        Print([f]);
        i := i + 1;
      }
    }

    /** `__pf_printstuff` */
    method PrintStuff(prefix: string, prefix2: string, stuff: string)
      requires Valid()
      modifies this`charcount, sink, sink.buf
      ensures Valid() && sink.text == old(sink.text) + Field(pf, prefix + prefix2, stuff)
    {
      var len := |prefix| + |prefix2| + |stuff|;
      var spc := pf.spacing;
      if spc > len {
        spc := spc - len;
      } else {
        spc := 0;
      }
      FieldParts(pf, prefix, prefix2, stuff, sink.text);
      hide Field, Repeat;
      ghost var before, between, after := "", "", "";
      if spc > 0 && !pf.rightspc && pf.fillchar != '0' {
        Fill(spc);
        before := Repeat(pf.fillchar, spc);
      }
      ghost var t1 := old(sink.text) + before;
      assert sink.text == t1;
      Print(prefix);
      Print(prefix2);
      ghost var t2 := sink.text;
      if spc > 0 && !pf.rightspc && pf.fillchar == '0' {
        Fill(spc);
        between := Repeat(pf.fillchar, spc);
      }
      assert sink.text == t2 + between;
      Print(stuff);
      ghost var t3 := sink.text;
      if spc > 0 && pf.rightspc {
        Fill(spc);
        after := Repeat(pf.fillchar, spc);
      }
      assert sink.text == t3 + after;
      assert sink.text == Assembled(old(sink.text), before, prefix, prefix2, between, stuff, after);
    }

    /** `__pf_printnum` */
    method PrintNum()
      requires Valid() && pf.num < QUAD && (pf.base == 8 || pf.base == 10 || pf.base == 16)
      modifies this`charcount, sink, sink.buf
      ensures Valid() && sink.text == old(sink.text) + Field(pf, Prefix(pf), Numeral(pf.num, pf.base))
    {
      var x := DigitsOf(pf.num, pf.base);
      var bprefix := "";
      if pf.baseprefix && pf.base == 16 {
        bprefix := "0x";
      } else if pf.baseprefix && pf.base == 8 {
        bprefix := "0";
      }
      var sprefix := if pf.sign then "-" else "";
      PrintStuff(sprefix, bprefix, x);
    }

    /** `__pf_send`: one character of the format. */
    method SendChar(ch: char)
      requires Valid()
      modifies this, sink, sink.buf
      ensures Valid() && sink.text == old(sink.text) + Feed(old(pf), ch, args).0 && pf == Feed(old(pf), ch, args).1
    {
      hide Field, Prefix, Numeral, Modifier, GetNum, SetBase;
      assert sink.text + "" == sink.text;
      assert "" + "" == "";
      if !pf.inPct && ch != '%' {
        Print([ch]);
      } else if !pf.inPct {
        pf := pf.(inPct := true);
      } else if IsModifier(ch) {
        pf := Modifier(pf, ch);
      } else if IsInteger(ch) {
        NumRange(pf, ch, args);
        pf := GetNum(pf, ch, args);
        pf := SetBase(pf, ch);
        PrintNum();
        pf := EndField(pf.next);
      } else if ch == 's' {
        PrintStuff("", "", StringOf(args.text(pf.next)));
        pf := EndField(pf.next + 1);
      } else if ch == 'c' {
        PrintStuff("", "", CharOf(args.bits(pf.next)));
        pf := EndField(pf.next + 1);
      } else {
        PrintStuff("", "", [ch]);
        pf := EndField(pf.next);
      }
    }

    /** `__vprintf`: the whole format. */
    method VPrintf(format: string) returns (chars: nat)
      requires Valid() && sink.text == "" && pf == EndField(0)
      modifies this, sink, sink.buf
      ensures Valid() && sink.text == Output(format, args) && chars == |Output(format, args)|
    {
      var i := 0;
      assert format[0..] == format;
      while i < |format|
        invariant 0 <= i <= |format| && Valid()
        invariant sink.text + Format(pf, format[i..], args) == Output(format, args)
      {
        assert format[i..][1..] == format[i + 1..];
        SendChar(format[i]);
        i := i + 1;
      }
      chars := charcount;
    }
  }

  /** `vsnprintf`: the longest prefix that fits, a terminator, and the full length. */
  method Vsnprintf(buf: array<char>, len: nat, fmt: string, args: Args) returns (chars: nat)
    requires len <= buf.Length
    modifies buf
    ensures chars == |Output(fmt, args)|
    ensures len == 0 ==> buf[..] == old(buf[..])
    ensures len > 0 ==> var n := Min(chars, len - 1);
      buf[..] == Output(fmt, args)[..n] + ['\0'] + old(buf[..])[n + 1..]
  {
    var buflen := if len == 0 then 0 else len - 1;
    var snp := new Snp(buf, buflen);
    var pf := new Printer(snp, args);
    chars := pf.VPrintf(fmt);
    hide Output;
    if len > 0 {
      Terminate(snp.text, snp.original, snp.bufpos);
      ghost var b := buf[..];
      buf[snp.bufpos] := '\0';
      assert buf[..] == b[snp.bufpos := '\0'];
    }
  }
}
