/** Parsing decimal integers, common/libc/stdlib/atoi.c, and its agreement with the printer. */
module Atoi {
  import opened Arithmetic
  import opened Numerals
  import opened Printf

  predicate IsBlank(c: char) {
    c == ' ' || c == '\t'
  }

  function SkipBlanks(s: string): string {
    if s != [] && IsBlank(s[0]) then SkipBlanks(s[1..]) else s
  }

  /** The digits a text starts with. */
  function LeadingDigits(s: string): (d: string)
    ensures AllDigits(d) && |d| <= |s| && d == s[..|d|] && (|d| < |s| ==> !IsDigit(s[|d|]))
  {
    if s != [] && IsDigit(s[0]) then [s[0]] + LeadingDigits(s[1..]) else []
  }

  function AfterSign(s: string): string {
    if s != [] && (s[0] == '-' || s[0] == '+') then s[1..] else s
  }

  /** The number a text stands for, in an `int`: blanks, a sign, digits, anything. */
  function Parse(s: string): int {
    var t := SkipBlanks(s);
    var v := Value(LeadingDigits(AfterSign(t)));
    Signed(if t != [] && t[0] == '-' then 0 - v else v, INTSZ)
  }

  /** The place of a digit in the list of digits, as `strchr` finds it. */
  method FindDigit(c: char) returns (where: int)
    ensures where == if IsDigit(c) then DigitValue(c) else -1
  {
    where := 0;
    while where < 10
      invariant 0 <= where <= 10 && forall k :: 0 <= k < where ==> DIGITS[k] != c
    {
      if DIGITS[where] == c {
        DigitChars(where);
        return;
      }
      where := where + 1;
    }
    NotADigit(c);
    where := -1;
  }

  lemma DigitOf(c: char)
    requires IsDigit(c)
    ensures DIGITS[DigitValue(c)] == c
  {
  }

  lemma NotADigit(c: char)
    requires forall k :: 0 <= k < 10 ==> DIGITS[k] != c
    ensures !IsDigit(c)
  {
    if IsDigit(c) {
      DigitOf(c);
    }
  }

  lemma {:induction false} SkipStep(s: string, i: nat)
    requires i < |s| && IsBlank(s[i])
    ensures SkipBlanks(s[i..]) == SkipBlanks(s[i + 1..])
  {
  }

  lemma {:induction false} DigitsStep(s: string, i: nat)
    requires i < |s| && IsDigit(s[i])
    ensures LeadingDigits(s[i..]) == [s[i]] + LeadingDigits(s[i + 1..])
  {
  }

  lemma WrapStep(v: nat, d: nat)
    ensures (v % WORD * 10 + d) % WORD == (v * 10 + d) % WORD
  {
  }

  lemma ParseParts(s: string, t: string, d: string)
    requires SkipBlanks(s) == t && LeadingDigits(AfterSign(t)) == d
    ensures t != [] && t[0] == '-' ==> Parse(s) == Signed(0 - Value(d), INTSZ)
    ensures t == [] || t[0] != '-' ==> Parse(s) == Signed(Value(d), INTSZ)
  {
  }

  lemma BlanksDone(s: string, i: nat)
    requires i <= |s| && (i < |s| ==> !IsBlank(s[i]))
    ensures SkipBlanks(s[i..]) == s[i..]
  {
  }

  /** `atoi` */
  method ParseInt(s: string) returns (r: int)
    ensures r == Parse(s)
  {
    hide Parse, SkipBlanks, LeadingDigits, Value, Printf.Signed;
    var i := 0;
    assert s[0..] == s;
    while i < |s| && (s[i] == ' ' || s[i] == '\t')
      invariant 0 <= i <= |s| && SkipBlanks(s[i..]) == SkipBlanks(s)
    {
      SkipStep(s, i);
      i := i + 1;
    }
    BlanksDone(s, i);
    ghost var t := s[i..];
    var neg := false;
    if i < |s| && s[i] == '-' {
      neg := true;
      i := i + 1;
    } else if i < |s| && s[i] == '+' {
      i := i + 1;
    }
    assert s[i..] == AfterSign(t);
    ParseParts(s, t, LeadingDigits(AfterSign(t)));
    var val: int := ParseDigits(s, i);
    NegateWrap(Value(LeadingDigits(AfterSign(t))), val);
    if neg {
      return Signed(0 - val, INTSZ);
    }
    return Signed(val, INTSZ);
  }

  lemma NegateWrap(v: nat, w: nat)
    requires w == v % WORD
    ensures Signed(w, INTSZ) == Signed(v, INTSZ) && Signed(0 - w, INTSZ) == Signed(0 - v, INTSZ)
  {
    var q := v / WORD;
    assert v == q * WORD + w;
    var x := (0 - w) % WORD;
    var k := (0 - w) / WORD;
    assert 0 - w == k * WORD + x;
    DivModUnique(0 - v, WORD, k - q, x);
  }

  /** One more digit read. */
  lemma ReadDigit(s: string, start: nat, i: nat, done: string)
    requires start <= i < |s| && AllDigits(done) && IsDigit(s[i])
    requires done + LeadingDigits(s[i..]) == LeadingDigits(s[start..])
    ensures AllDigits(done + [s[i]]) && (done + [s[i]]) + LeadingDigits(s[i + 1..]) == LeadingDigits(s[start..])
    ensures Value(done + [s[i]]) % WORD == (Value(done) % WORD * 10 + DigitValue(s[i])) % WORD
  {
    hide LeadingDigits;
    DigitsStep(s, i);
    ValueAppend(done, s[i]);
    WrapStep(Value(done), DigitValue(s[i]));
  }

  /** The loop has read the digits `done` and stands at `i`. */
  ghost predicate SoFar(s: string, start: nat, i: nat, done: string, val: nat)
    requires start <= i <= |s|
  {
    AllDigits(done) && val == Value(done) % WORD && done + LeadingDigits(s[i..]) == LeadingDigits(s[start..])
  }

  lemma SoFarStart(s: string, start: nat)
    requires start <= |s|
    ensures SoFar(s, start, start, [], 0)
  {
  }

  lemma SoFarStep(s: string, start: nat, i: nat, done: string, val: nat)
    requires start <= i < |s| && SoFar(s, start, i, done, val) && IsDigit(s[i])
    ensures SoFar(s, start, i + 1, done + [s[i]], (val * 10 + DigitValue(s[i])) % WORD)
  {
    hide LeadingDigits, Value;
    ReadDigit(s, start, i, done);
  }

  lemma SoFarEnd(s: string, start: nat, i: nat, done: string, val: nat)
    requires start <= i <= |s| && SoFar(s, start, i, done, val) && (i < |s| ==> !IsDigit(s[i]))
    ensures val == Value(LeadingDigits(s[start..])) % WORD
  {
    assert done + [] == done;
  }

  /** The digit loop, in wrapping 32-bit arithmetic. */
  method ParseDigits(s: string, start: nat) returns (val: nat)
    requires start <= |s|
    ensures val == Value(LeadingDigits(s[start..])) % WORD
  {
    hide SoFar, Value;
    val := 0;
    var i := start;
    ghost var done: string := [];
    SoFarStart(s, start);
    while i < |s|
      invariant start <= i <= |s| && SoFar(s, start, i, done, val)
    {
      var digit := FindDigit(s[i]);
      if digit == -1 {
        break;
      }
      SoFarStep(s, start, i, done, val);
      val := (val * 10 + digit) % WORD;
      done := done + [s[i]];
      i := i + 1;
    }
    SoFarEnd(s, start, i, done, val);
  }

  // ---------------------------------------------------------------------------------------
  // Printing and parsing undo each other
  // ---------------------------------------------------------------------------------------

  predicate IsInt(n: int) {
    -0x8000_0000 <= n < 0x8000_0000
  }

  function Decimal(n: int): string {
    if n < 0 then "-" + Numeral(Abs(n), 10) else Numeral(Abs(n), 10)
  }

  /** `%d` prints an `int` in decimal. */
  lemma PrintsDecimal(n: int, args: Args)
    requires IsInt(n) && args.bits(0) == n
    ensures Output("%d", args) == Decimal(n)
  {
    var pf0 := EndField(0);
    var pf1 := pf0.(inPct := true);
    assert "%d"[1..] == "d" && "d"[1..] == "";
    assert Feed(pf0, '%', args) == ("", pf1);
    var (out, pf2) := Feed(pf1, 'd', args);
    assert Format(pf2, "", args) == "";
    assert Format(pf1, "d", args) == out + "";
    assert Output("%d", args) == "" + (out + "");
    SignedInt(n);
    DecimalField(pf1, n, args);
  }

  lemma SignedInt(n: int)
    requires IsInt(n)
    ensures Signed(n, INTSZ) == n
  {
  }

  lemma DecimalField(pf: Pf, n: int, args: Args)
    requires pf == EndField(0).(inPct := true) && args.bits(0) == n && Signed(n, INTSZ) == n
    ensures Feed(pf, 'd', args).0 == Decimal(n)
  {
    hide Numeral, Printf.Signed;
    var pf' := SetBase(GetNum(pf, 'd', args), 'd');
    assert pf'.base == 10 && pf'.num == Abs(n) && pf'.sign == (n < 0) && !pf'.baseprefix && pf'.spacing == 0;
    PlainField(pf', n);
  }

  lemma PlainField(pf: Pf, n: int)
    requires pf.spacing == 0 && pf.sign == (n < 0) && !pf.baseprefix && !pf.rightspc && pf.fillchar == ' '
    ensures Field(pf, Prefix(pf), Numeral(Abs(n), 10)) == Decimal(n)
  {
  }

  lemma {:induction false} AllBlank(pre: string, s: string)
    requires (forall i :: 0 <= i < |pre| ==> IsBlank(pre[i])) && (s != [] ==> !IsBlank(s[0]))
    ensures SkipBlanks(pre + s) == s
  {
    if pre == [] {
      assert pre + s == s;
    } else {
      AllBlank(pre[1..], s);
      assert (pre + s)[1..] == pre[1..] + s;
    }
  }

  lemma {:induction false} DigitsThen(d: string, post: string)
    requires AllDigits(d) && (post != [] ==> !IsDigit(post[0]))
    ensures LeadingDigits(d + post) == d
  {
    if d == [] {
      assert d + post == post;
    } else {
      DigitsThen(d[1..], post);
      assert (d + post)[1..] == d[1..] + post;
    }
  }

  lemma Negative(num: string, post: string)
    ensures ("-" + num + post)[0] == '-' && ("-" + num + post)[1..] == num + post
  {
  }

  lemma Positive(num: string, post: string)
    requires num != [] && IsDigit(num[0])
    ensures (num + post)[0] == num[0]
  {
  }

  lemma DecimalStart(n: int, post: string)
    ensures var num, t := Numeral(Abs(n), 10), Decimal(n) + post;
      t != [] && !IsBlank(t[0]) && (t[0] == '-' <==> n < 0) && AfterSign(t) == num + post
  {
    NumeralValue(Abs(n));
    hide Numeral, Value;
    var num := Numeral(Abs(n), 10);
    assert IsDigit(num[0]);
    hide Numerals.AllDigits;
    if n < 0 {
      Negative(num, post);
    } else {
      Positive(num, post);
    }
  }

  /** Every `int` is read back from its decimal text, whatever blanks come before and whatever text but a digit
      after. */
  lemma RoundTrip(n: int, pre: string, post: string)
    requires IsInt(n) && (forall i :: 0 <= i < |pre| ==> IsBlank(pre[i])) && (post != [] ==> !IsDigit(post[0]))
    ensures Parse(pre + Decimal(n) + post) == n
  {
    hide Numeral, Value, Decimal, Parse, SkipBlanks, LeadingDigits, AfterSign, Printf.Signed;
    var num, t := Numeral(Abs(n), 10), Decimal(n) + post;
    NumeralValue(Abs(n));
    DigitsThen(num, post);
    SignedInt(n);
    DecimalStart(n, post);
    AllBlank(pre, t);
    assert pre + Decimal(n) + post == pre + t;
    ParseParts(pre + t, t, num);
  }

  /** The same through a buffer: what `snprintf` stores for `%d` reads back, when the buffer is large enough. */
  method PrintAndParse(n: int, buf: array<char>, args: Args) returns (r: int)
    requires IsInt(n) && args.bits(0) == n && |Decimal(n)| < buf.Length
    modifies buf
    ensures r == n
  {
    PrintsDecimal(n, args);
    hide Output, Decimal;
    var chars := Vsnprintf(buf, buf.Length, "%d", args);
    RoundTrip(n, "", "");
    assert buf[..chars] == Decimal(n);
    assert "" + Decimal(n) + "" == Decimal(n);
    r := ParseInt(buf[..chars]);
  }
}
