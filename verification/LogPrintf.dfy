/** The stripped-down printf of the board's log (alt_log_printf.c). */
module LogPrintf {

  import opened Machine

  const SIGN := 0x8000_0000

  type Base = b: nat | b == 8 || b == 10 || b == 16 witness 10

  // ---- Numerals ----

  function Digit(d: nat, upper: bool): char
    requires d < 16
  {
    if d <= 9 then '0' + d as char else (if upper then 'A' else 'a') + (d - 10) as char
  }

  function DigitValue(c: char): nat {
    if '0' <= c <= '9' then c as int - '0' as int
    else if 'a' <= c <= 'f' then c as int - 'a' as int + 10
    else if 'A' <= c <= 'F' then c as int - 'A' as int + 10
    else 0
  }

  /** The numeral of a number. */
  function Digits(v: nat, b: Base, upper: bool): string {
    if v < b then [Digit(v, upper)] else Digits(v / b, b, upper) + [Digit(v % b, upper)]
  }

  function Parse(s: string, b: Base): nat {
    if s == "" then 0 else Parse(s[..|s| - 1], b) * b + DigitValue(s[|s| - 1])
  }

  function Power(b: Base, n: nat): (p: nat)
    ensures p > 0
  {
    if n == 0 then 1 else Power(b, n - 1) * b
  }

  /** The last `n` digits of a number. */
  function Fixed(v: nat, n: nat, b: Base, upper: bool): (s: string)
    ensures |s| == n
  {
    if n == 0 then "" else Fixed(v / b, n - 1, b, upper) + [Digit(v % b, upper)]
  }

  function Count(v: nat, b: Base): (n: nat)
    ensures n > 0
  {
    if v < b then 1 else 1 + Count(v / b, b)
  }

  lemma DivMod(x: int, q: int, b: Base, r: nat)
    requires r < b && x == q * b + r
    ensures x / b == q && x % b == r
  {
    if b == 8 {
    } else if b == 10 {
    } else {
    }
  }

  lemma Rounded(v: nat, b: Base, p: nat)
    requires v / b < p
    ensures v < p * b
  {
    assert v == v / b * b + v % b && v % b < b;
    assert (v / b + 1) * b <= p * b;
  }

  lemma {:induction false} DigitsAreFixed(v: nat, b: Base, upper: bool)
    ensures Digits(v, b, upper) == Fixed(v, Count(v, b), b, upper)
    ensures v < Power(b, Count(v, b))
  {
    if v < b {
      DivMod(v, 0, b, v);
      assert Power(b, 0) == 1;
    } else {
      DigitsAreFixed(v / b, b, upper);
      assert v / b + 1 <= Power(b, Count(v / b, b));
      Rounded(v, b, Power(b, Count(v / b, b)));
    }
  }

  lemma Below(r: nat, b: Base, p: nat)
    requires r < p * b
    ensures r / b < p
  {
    if b == 8 {
    } else if b == 10 {
    } else {
    }
  }

  lemma Regroup(x: int, y: int, z: int)
    ensures x * (y * z) == x * y * z
  {
  }

  /** Taking digits off the top gives the same as taking them off the bottom. */
  lemma {:induction false} TopDigit(d: nat, r: nat, n: nat, b: Base, upper: bool)
    requires d < b && r < Power(b, n)
    ensures Fixed(d * Power(b, n) + r, n + 1, b, upper) == [Digit(d, upper)] + Fixed(r, n, b, upper)
  {
    hide Digit;
    if n == 0 {
      DivMod(d, 0, b, d);
      assert Fixed(0, 0, b, upper) == "";
    } else {
      var p := Power(b, n - 1);
      var q, e := r / b, r % b;
      Below(r, b, p);
      TopDigit(d, q, n - 1, b, upper);
      Regroup(d, p, b);
      assert d * p * b + q * b == (d * p + q) * b;
      DivMod(d * (p * b) + r, d * p + q, b, e);
    }
  }

  lemma DigitIsRead(d: nat, upper: bool)
    requires d < 16
    ensures DigitValue(Digit(d, upper)) == d
  {
  }

  /** A numeral reads back as its number. */
  lemma {:induction false} DigitsParse(v: nat, b: Base, upper: bool)
    ensures Parse(Digits(v, b, upper), b) == v
  {
    if v < b {
      DigitIsRead(v, upper);
      assert Parse("", b) == 0;
    } else {
      DigitsParse(v / b, b, upper);
      DigitIsRead(v % b, upper);
      assert Digits(v, b, upper)[..|Digits(v, b, upper)| - 1] == Digits(v / b, b, upper);
    }
  }

  lemma OnlyZeroIsZero(d: nat, upper: bool)
    requires d < 16
    ensures Digit(d, upper) == '0' <==> d == 0
  {
  }

  lemma AtLeastOne(v: nat, b: Base)
    requires v >= b
    ensures v / b > 0
  {
    if b == 8 {
    } else if b == 10 {
    } else {
    }
  }

  /** It has no superfluous leading digit. */
  lemma {:induction false} NoLeadingZero(v: nat, b: Base, upper: bool)
    ensures Digits(v, b, upper) != "" && (Digits(v, b, upper)[0] == '0' <==> v == 0)
  {
    hide Digit;
    if v >= b {
      NoLeadingZero(v / b, b, upper);
      AtLeastOne(v, b);
    } else {
      OnlyZeroIsZero(v, upper);
    }
  }

  // ---- Fields ----

  function Repeat(c: char, n: int): (s: string)
    ensures |s| == (if n > 0 then n else 0) && forall k :: 0 <= k < |s| ==> s[k] == c
  {
    if n <= 0 then "" else [c] + Repeat(c, n - 1)
  }

  function Signed(v: U32): int {
    if v >= SIGN then v - TWO_32 else v
  }

  predicate Negative(v: U32, signed: bool) {
    signed && v >= SIGN
  }

  function Magnitude(v: U32, signed: bool): U32 {
    if Negative(v, signed) then TWO_32 - v else v
  }

  function Padding(v: U32, width: int, b: Base, signed: bool): int {
    width - Count(Magnitude(v, signed), b) - if Negative(v, signed) then 1 else 0
  }

  function Lead(zero: bool, pad: int, negative: bool): string {
    var sign := if negative then "-" else "";
    if zero then sign + Repeat('0', pad) else Repeat(' ', pad) + sign
  }

  /** An integer in its field: zeros go between the sign and the digits, blanks before the sign. */
  function Field(v: U32, zero: bool, width: int, b: Base, signed: bool, upper: bool): string {
    Lead(zero, Padding(v, width, b, signed), Negative(v, signed)) + Digits(Magnitude(v, signed), b, upper)
  }

  /** Reading a field: blanks, a sign, and the digits. */
  function Read(s: string, b: Base): int {
    if s == "" then 0
    else if s[0] == ' ' then Read(s[1..], b)
    else if s[0] == '-' then 0 - Parse(s[1..], b)
    else Parse(s, b)
  }

  /** A field is as wide as asked, or as its contents. */
  lemma FieldWidth(v: U32, zero: bool, width: int, b: Base, signed: bool, upper: bool)
    ensures var least := Count(Magnitude(v, signed), b) + if Negative(v, signed) then 1 else 0;
      |Field(v, zero, width, b, signed, upper)| == if width > least then width else least
  {
    DigitsAreFixed(Magnitude(v, signed), b, upper);
  }

  lemma ZerosAtEnd(n: int)
    requires n > 0
    ensures (Repeat('0', n) + "")[..n - 1] == Repeat('0', n - 1) + ""
  {
  }

  lemma {:induction false} LeadingZeros(n: int, s: string, b: Base)
    ensures Parse(Repeat('0', n) + s, b) == Parse(s, b)
  {
    if s != "" {
      LeadingZeros(n, s[..|s| - 1], b);
      assert (Repeat('0', n) + s)[..|Repeat('0', n) + s| - 1] == Repeat('0', n) + s[..|s| - 1];
    } else if n > 0 {
      LeadingZeros(n - 1, "", b);
      ZerosAtEnd(n);
    }
  }

  lemma {:induction false} Blanks(n: int, s: string, b: Base)
    ensures Read(Repeat(' ', n) + s, b) == Read(s, b)
  {
    if n > 0 {
      Blanks(n - 1, s, b);
      assert (Repeat(' ', n) + s)[1..] == Repeat(' ', n - 1) + s;
    } else {
      assert Repeat(' ', n) + s == s;
    }
  }

  /** The sign and the digits, without padding. */
  function Bare(negative: bool, digits: string): string {
    if negative then "-" + digits else digits
  }

  lemma BareReads(negative: bool, digits: string, b: Base)
    requires digits != "" && digits[0] != ' ' && digits[0] != '-'
    ensures Read(Bare(negative, digits), b) == if negative then 0 - Parse(digits, b) else Parse(digits, b)
  {
    assert ("-" + digits)[1..] == digits;
  }

  lemma LeadReads(zero: bool, pad: int, negative: bool, digits: string, b: Base)
    requires digits != "" && digits[0] != ' ' && digits[0] != '-'
    ensures Read(Lead(zero, pad, negative) + digits, b) ==
      if negative then 0 - Parse(digits, b) else Parse(digits, b)
  {
    hide Parse, Read;
    if zero {
      var padded := Repeat('0', pad) + digits;
      LeadingZeros(pad, digits, b);
      BareReads(negative, padded, b);
      assert Lead(zero, pad, negative) + digits == Bare(negative, padded);
    } else {
      BareReads(negative, digits, b);
      Blanks(pad, Bare(negative, digits), b);
      assert Lead(zero, pad, negative) + digits == Repeat(' ', pad) + Bare(negative, digits);
    }
  }

  lemma {:induction false} StartsWithDigit(v: nat, b: Base, upper: bool)
    ensures var s := Digits(v, b, upper); s != "" && s[0] != ' ' && s[0] != '-'
  {
    if v >= b {
      StartsWithDigit(v / b, b, upper);
    }
  }

  /** Every field reads back as the value that was printed, the least negative one too. */
  lemma FieldReads(v: U32, zero: bool, width: int, b: Base, signed: bool, upper: bool)
    ensures Read(Field(v, zero, width, b, signed, upper), b) == if signed then Signed(v) else v
  {
    hide Digits, Parse, Count, Lead, Read;
    DigitsParse(Magnitude(v, signed), b, upper);
    StartsWithDigit(Magnitude(v, signed), b, upper);
    LeadReads(zero, Padding(v, width, b, signed), Negative(v, signed), Digits(Magnitude(v, signed), b, upper), b);
  }

  // ---- Formats ----

  /** C strings, without their terminator. */
  type CString = s: string | '\0' !in s

  datatype Arg = Num(v: U32) | Str(s: CString)

  /** What a directive says before its letter; minus one stands for a width or precision not given. */
  datatype Spec = Spec(zero: bool, long: bool, before: int, after: int)

  datatype Mode = Chars | FirstFmtChar | OtherFmtChar

  const NOTHING := Spec(false, false, -1, -1)

  predicate Takes(letter: char) {
    letter in "diuoxXcs"
  }

  predicate Fits(letter: char, arg: Arg) {
    Takes(letter) && (arg.Str? <==> letter == 's')
  }

  function BaseOf(letter: char): Base {
    if letter == 'o' then 8 else if letter == 'x' || letter == 'X' then 16 else 10
  }

  /** What a directive prints. The precision has no effect, and only integers take zeros. */
  function Converted(spec: Spec, letter: char, arg: Arg): string
    requires Fits(letter, arg)
  {
    match arg
    case Str(s) => Repeat(' ', spec.before - |s|) + s
    case Num(v) =>
      if letter == 'c' then Repeat(' ', spec.before - 1) + [(v % 256) as char]
      else Field(v, spec.zero, spec.before, BaseOf(letter), letter == 'd' || letter == 'i', letter == 'X')
  }

  function Then(s: string, rest: Option<string>): Option<string> {
    if rest.Some? then Some(s + rest.value) else None
  }

  /** What a character after the first of a directive changes. */
  function Refined(spec: Spec, c: char): Spec {
    if c == '.' then spec.(after := 0)
    else if c == 'l' then spec.(long := true)
    else if !('0' <= c <= '9') then spec
    else
      var d := c as int - '0' as int;
      if spec.after < 0 then spec.(before := (if spec.before < 0 then 0 else spec.before * 10) + d)
      else spec.(after := spec.after * 10 + d)
  }

  predicate Refines(c: char) {
    c == '.' || c == 'l' || '0' <= c <= '9'
  }

  /** What the rest of a format prints; nothing is defined if an argument it needs is missing. */
  function Printed(mode: Mode, spec: Spec, w: string, args: seq<Arg>): Option<string>
    decreases |w|, mode == FirstFmtChar
  {
    if w == "" then Some("")
    else
      var c, rest := w[0], w[1..];
      match mode
      case Chars =>
        if c == '%' then Printed(FirstFmtChar, NOTHING, rest, args) else Then([c], Printed(Chars, spec, rest, args))
      case FirstFmtChar =>
        if c == '0' then Printed(OtherFmtChar, spec.(zero := true), rest, args)
        else if c == '%' then Then("%", Printed(Chars, spec, rest, args))
        else Printed(OtherFmtChar, spec, w, args)
      case OtherFmtChar =>
        if Refines(c) then Printed(OtherFmtChar, Refined(spec, c), rest, args)
        else if !Takes(c) then Printed(Chars, spec, rest, args)
        else if args == [] || !Fits(c, args[0]) then None
        else Then(Converted(spec, c, args[0]), Printed(Chars, spec, rest, args[1..]))
  }

  lemma AtEnd(mode: Mode, spec: Spec, args: seq<Arg>)
    ensures Printed(mode, spec, "", args) == Some("")
  {
  }

  lemma AtMost(s: nat, b: Base)
    ensures b * (s / b) <= s && (s > 0 ==> s / b < s)
  {
    if b == 8 {
    } else if b == 10 {
    } else {
    }
  }

  lemma Monotone(p: nat, x: nat, y: nat)
    requires x <= y
    ensures p * x <= p * y
  {
  }

  lemma Shrinks(x: nat, s: U32, b: Base, v: U32)
    requires 0 < s && x * s <= v
    ensures x < TWO_32 && x * b * (s / b) <= v && s / b < s
  {
    AtMost(s, b);
    Monotone(x, 1, s);
    Monotone(x, b * (s / b), s);
    Regroup(x, b, s / b);
  }

  lemma CountStep(v: nat, b: Base)
    ensures Count(v, b) == 1 + if v / b > 0 then Count(v / b, b) else 0
    ensures b * (v / b) <= v && Power(b, 0) == 1 && forall n :: n > 0 ==> Power(b, n) == Power(b, n - 1) * b
  {
    AtMost(v, b);
    if v < b {
      DivMod(v, 0, b, v);
    } else {
      AtLeastOne(v, b);
    }
  }

  lemma Split(v: nat, p: nat, b: nat)
    requires p > 0 && v < p * b
    ensures 0 <= v / p < b && 0 <= v % p < p && v == v / p * p + v % p
  {
    if v / p >= b {
      Monotone(p, b, v / p);
    }
  }

  lemma NextDigit(v: nat, p: nat, b: Base, n: nat, upper: bool)
    requires n > 0 && p == Power(b, n - 1) && v < Power(b, n)
    ensures 0 <= v / p < b && 0 <= v % p < p
    ensures Fixed(v, n, b, upper) == [Digit(v / p, upper)] + Fixed(v % p, n - 1, b, upper)
    ensures p / b == if n == 1 then 0 else Power(b, n - 2)
  {
    hide Fixed;
    Split(v, p, b);
    TopDigit(v / p, v % p, n - 1, b, upper);
    if n > 1 {
      DivMod(p, Power(b, n - 2), b, 0);
    } else {
      DivMod(1, 0, b, 1);
    }
  }

  /** The port that the log goes to, and what it has sent. */
  class Port {
    var sent: string

    method TxChar(c: char)
      modifies this
      ensures sent == old(sent) + [c]
    {
      sent := sent + [c];
    }

    lemma MoreOf(c: char, n: int)
      requires n > 0
      ensures forall s: string :: s + Repeat(c, n) == s + [c] + Repeat(c, n - 1)
    {
    }

    method RepChar(c: char, r: int)
      modifies this
      ensures sent == old(sent) + Repeat(c, r)
    {
      var n := r;
      while n > 0
        invariant n <= r && sent + Repeat(c, n) == old(sent) + Repeat(c, r)
      {
        MoreOf(c, n);
        TxChar(c);
        n := n - 1;
      }
    }

    /** The number of digits and the place value of the first; the product never leaves 32 bits. */
    method Places(v: U32, b: Base) returns (digitCount: nat, p: U32)
      ensures digitCount == Count(v, b) && p == Power(b, digitCount - 1)
    {
      hide Count, Power;
      CountStep(v, b);
      var shrink: U32 := v / b;
      digitCount, p := 1, 1;
      while shrink > 0
        invariant 1 <= digitCount && p == Power(b, digitCount - 1)
        invariant Count(v, b) == digitCount + if shrink > 0 then Count(shrink, b) else 0
        invariant p * b * shrink <= v
        decreases shrink
      {
        Shrinks(p * b, shrink, b, v);
        CountStep(shrink, b);
        digitCount := digitCount + 1;
        p := p * b;
        shrink := shrink / b;
      }
    }

    method PrintDigit(v: U32, place: U32, b: Base, upper: bool, ghost n: nat) returns (rest: U32, next: U32)
      requires n > 0 && place == Power(b, n - 1) && v < Power(b, n)
      modifies this
      ensures next == (if n == 1 then 0 else Power(b, n - 2)) && rest < Power(b, n - 1)
      ensures exists c :: sent == old(sent) + [c] && Fixed(v, n, b, upper) == [c] + Fixed(rest, n - 1, b, upper)
    {
      hide Power, Fixed;
      NextDigit(v, place, b, n, upper);
      var d := v / place;
      var c := d + '0' as int;
      if c > '9' as int {
        c := c + (if upper then 'A' as int else 'a' as int) - '0' as int - 10;
      }
      TxChar(c as char);
      assert c as char == Digit(d, upper);
      rest := v % place;
      next := place / b;
    }

    /** The digits from the first place down. */
    method PrintDigits(v: U32, first: U32, b: Base, upper: bool, ghost n: nat)
      requires n > 0 && first == Power(b, n - 1) && v < Power(b, n)
      modifies this
      ensures sent == old(sent) + Fixed(v, n, b, upper)
    {
      hide Power;
      var rest: U32, p: U32 := v, first;
      ghost var k := n;
      while p > 0
        invariant 0 <= k <= n && p == if k == 0 then 0 else Power(b, k - 1)
        invariant k > 0 ==> rest < Power(b, k)
        invariant sent + Fixed(rest, k, b, upper) == old(sent) + Fixed(v, n, b, upper)
        decreases k
      {
        rest, p := PrintDigit(rest, p, b, upper, k);
        k := k - 1;
      }
    }

    /** What comes before the digits. */
    method PrintLead(zero: bool, width: int, sign: bool)
      modifies this
      ensures sent == old(sent) + Lead(zero, width - if sign then 1 else 0, sign)
    {
      hide Repeat;
      var before := width;
      if zero {
        if sign {
          TxChar('-');
          before := before - 1;
        }
        RepChar('0', before);
      } else {
        if sign {
          before := before - 1;
        }
        RepChar(' ', before);
        if sign {
          TxChar('-');
        }
      }
    }

    method PrintInteger(arg: U32, zero: bool, before: int, b: Base, signed: bool, upper: bool)
      modifies this
      ensures sent == old(sent) + Field(arg, zero, before, b, signed, upper)
    {
      hide Lead, Digits, Count, Power;
      var v := arg;
      var sign := false;
      if signed && v >= SIGN {
        v := TWO_32 - v;
        sign := true;
      }
      var digitCount, p := Places(v, b);
      PrintLead(zero, before - digitCount, sign);
      DigitsAreFixed(v, b, upper);
      PrintDigits(v, p, b, upper, digitCount);
    }

    method PrintString(s: CString)
      modifies this
      ensures sent == old(sent) + s
    {
      var i := 0;
      while i < |s|
        invariant 0 <= i <= |s| && sent == old(sent) + s[..i]
      {
        TxChar(s[i]);
        i := i + 1;
      }
    }

    /** A directive at its letter. */
    method Convert(spec: Spec, letter: char, arg: Arg)
      requires Fits(letter, arg)
      modifies this
      ensures sent == old(sent) + Converted(spec, letter, arg)
    {
      hide Field, Repeat;
      match arg
      case Str(s) =>
        RepChar(' ', spec.before - |s|);
        PrintString(s);
      case Num(v) =>
        if letter == 'c' {
          RepChar(' ', spec.before - 1);
          TxChar((v % 256) as char);
        } else if letter == 'd' || letter == 'i' {
          PrintInteger(v, spec.zero, spec.before, 10, true, false);
        } else if letter == 'u' {
          PrintInteger(v, spec.zero, spec.before, 10, false, false);
        } else if letter == 'o' {
          PrintInteger(v, spec.zero, spec.before, 8, false, false);
        } else {
          PrintInteger(v, spec.zero, spec.before, 16, false, letter == 'X');
        }
    }

    /** A character of a directive after its first. */
    method Refine(spec: Spec, c: char) returns (r: Spec)
      requires Refines(c)
      ensures r == Refined(spec, c)
    {
      r := spec;
      if c == '.' {
        r := r.(after := 0);
      } else if '0' <= c <= '9' {
        var d := c as int - '0' as int;
        if r.after < 0 {
          if r.before < 0 {
            r := r.(before := 0);
          } else {
            r := r.(before := r.before * 10);
          }
          r := r.(before := r.before + d);
        } else {
          r := r.(after := r.after * 10 + d);
        }
      } else {
        r := r.(long := true);
      }
    }

    /** One character of the format; `used` tells whether it has taken an argument. */
    method Character(mode: Mode, spec: Spec, w: CString, args: seq<Arg>) returns (m: Mode, sp: Spec, used: nat)
      requires w != "" && Printed(mode, spec, w, args).Some?
      modifies this
      ensures used <= |args| && Printed(m, sp, w[1..], args[used..]).Some?
      ensures sent + Printed(m, sp, w[1..], args[used..]).value == old(sent) + Printed(mode, spec, w, args).value
    {
      hide Converted;
      var c := w[0];
      m, sp, used := mode, spec, 0;
      if mode == Chars {
        if c == '%' {
          sp := NOTHING;
          m := FirstFmtChar;
        } else {
          TxChar(c);
        }
      } else if mode == FirstFmtChar && c == '0' {
        sp := sp.(zero := true);
        m := OtherFmtChar;
      } else if mode == FirstFmtChar && c == '%' {
        TxChar(c);
        m := Chars;
      } else if Refines(c) {
        sp := Refine(sp, c);
        m := OtherFmtChar;
      } else {
        if Takes(c) {
          Convert(sp, c, args[0]);
          used := 1;
        }
        m := Chars;
      }
    }

    /** The printing of a format with its arguments. */
    method Printf(fmt: CString, args: seq<Arg>)
      requires Printed(Chars, NOTHING, fmt, args).Some?
      modifies this
      ensures sent == old(sent) + Printed(Chars, NOTHING, fmt, args).value
    {
      hide Printed;
      var mode, spec := Chars, NOTHING;
      var w: CString, left := fmt, args;
      while w != ""
        invariant Printed(mode, spec, w, left).Some?
        invariant sent + Printed(mode, spec, w, left).value == old(sent) + Printed(Chars, NOTHING, fmt, args).value
        decreases |w|
      {
        var used;
        mode, spec, used := Character(mode, spec, w, left);
        w, left := w[1..], left[used..];
      }
      AtEnd(mode, spec, left);
    }
  }

  // ---- Formats that are written out ----

  /** The parts of a format: characters, percent signs, percent signs with a letter that means nothing,
      and directives with their arguments. */
  datatype Piece =
    | Text(c: char)
    | Percent
    | Unknown(c: char)
    | Directive(zero: bool, width: nat, precision: Option<nat>, long: bool, letter: char, arg: Arg)

  predicate Proper(p: Piece) {
    match p
    case Text(c) => c != '%'
    case Percent => true
    case Unknown(c) => c != '%' && !Refines(c) && !Takes(c)
    case Directive(_, _, _, _, letter, arg) => Fits(letter, arg)
  }

  function AsWidth(width: nat): string {
    if width == 0 then "" else Digits(width, 10, false)
  }

  function AsPrecision(precision: Option<nat>): string {
    match precision
    case None => ""
    case Some(n) => "." + Digits(n, 10, false)
  }

  function Ending(long: bool, letter: char): string {
    (if long then "l" else "") + [letter]
  }

  function Spelled(p: Piece): string {
    match p
    case Text(c) => [c]
    case Percent => "%%"
    case Unknown(c) => "%" + [c]
    case Directive(zero, width, precision, long, letter, _) =>
      "%" + ((if zero then "0" else "") + (AsWidth(width) + (AsPrecision(precision) + Ending(long, letter))))
  }

  function SpecOf(p: Piece): Spec
    requires p.Directive?
  {
    Spec(p.zero, p.long, if p.width == 0 then -1 else p.width, if p.precision.None? then -1 else p.precision.value)
  }

  function Meaning(p: Piece): string
    requires Proper(p)
  {
    match p
    case Text(c) => [c]
    case Percent => "%"
    case Unknown(_) => ""
    case Directive(_, _, _, _, letter, arg) => Converted(SpecOf(p), letter, arg)
  }

  function Format(ps: seq<Piece>): string {
    if ps == [] then "" else Spelled(ps[0]) + Format(ps[1..])
  }

  function Args(ps: seq<Piece>): seq<Arg> {
    if ps == [] then []
    else if ps[0].Directive? then [ps[0].arg] + Args(ps[1..]) else Args(ps[1..])
  }

  function Meanings(ps: seq<Piece>): string
    requires forall i :: 0 <= i < |ps| ==> Proper(ps[i])
  {
    if ps == [] then "" else Meaning(ps[0]) + Meanings(ps[1..])
  }

  lemma RefineOne(spec: Spec, c: char, w: string, args: seq<Arg>)
    requires Refines(c)
    ensures Printed(OtherFmtChar, spec, [c] + w, args) == Printed(OtherFmtChar, Refined(spec, c), w, args)
  {
    assert ([c] + w)[1..] == w;
  }

  /** The characters of a width are read as that width. */
  lemma {:induction false} WidthIsRead(spec: Spec, n: nat, w: string, args: seq<Arg>)
    requires spec.before == -1 && spec.after == -1
    ensures Printed(OtherFmtChar, spec, Digits(n, 10, false) + w, args) ==
      Printed(OtherFmtChar, spec.(before := n), w, args)
  {
    hide Printed;
    var last := Digit(n % 10, false);
    if n < 10 {
      RefineOne(spec, last, w, args);
    } else {
      WidthIsRead(spec, n / 10, [last] + w, args);
      RefineOne(spec.(before := n / 10), last, w, args);
      assert Digits(n, 10, false) + w == Digits(n / 10, 10, false) + ([last] + w);
    }
  }

  lemma {:induction false} PrecisionIsRead(spec: Spec, n: nat, w: string, args: seq<Arg>)
    requires spec.after == 0
    ensures Printed(OtherFmtChar, spec, Digits(n, 10, false) + w, args) ==
      Printed(OtherFmtChar, spec.(after := n), w, args)
  {
    hide Printed;
    var last := Digit(n % 10, false);
    if n < 10 {
      RefineOne(spec, last, w, args);
    } else {
      PrecisionIsRead(spec, n / 10, [last] + w, args);
      RefineOne(spec.(after := n / 10), last, w, args);
      assert Digits(n, 10, false) + w == Digits(n / 10, 10, false) + ([last] + w);
    }
  }

  /** What a directive has left behind does not matter to what follows. */
  lemma {:induction false} CharsForget(s: Spec, t: Spec, w: string, args: seq<Arg>)
    ensures Printed(Chars, s, w, args) == Printed(Chars, t, w, args)
    decreases |w|
  {
    if w != "" && w[0] != '%' {
      CharsForget(s, t, w[1..], args);
    }
  }

  lemma EndingIsRead(spec: Spec, long: bool, letter: char, arg: Arg, w: string, args: seq<Arg>)
    requires !spec.long && Fits(letter, arg)
    ensures Printed(OtherFmtChar, spec, Ending(long, letter) + w, [arg] + args) ==
      Then(Converted(spec.(long := long), letter, arg), Printed(Chars, NOTHING, w, args))
  {
    hide Converted;
    var sp := spec.(long := long);
    assert ([letter] + w)[1..] == w && ([arg] + args)[1..] == args;
    CharsForget(sp, NOTHING, w, args);
    if long {
      RefineOne(spec, 'l', [letter] + w, [arg] + args);
      assert Ending(long, letter) + w == ['l'] + ([letter] + w);
    } else {
      assert Ending(long, letter) + w == [letter] + w;
    }
  }

  lemma AfterWidth(spec: Spec, precision: Option<nat>, w: string, args: seq<Arg>)
    requires spec.after == -1
    ensures Printed(OtherFmtChar, spec, AsPrecision(precision) + w, args) ==
      Printed(OtherFmtChar, spec.(after := if precision.None? then -1 else precision.value), w, args)
  {
    hide Printed, Digits;
    match precision
    case None => assert AsPrecision(precision) + w == w;
    case Some(n) =>
      RefineOne(spec, '.', Digits(n, 10, false) + w, args);
      PrecisionIsRead(spec.(after := 0), n, w, args);
      assert AsPrecision(precision) + w == ['.'] + (Digits(n, 10, false) + w);
  }

  lemma AfterZero(spec: Spec, width: nat, w: string, args: seq<Arg>)
    requires spec.before == -1 && spec.after == -1
    ensures Printed(OtherFmtChar, spec, AsWidth(width) + w, args) ==
      Printed(OtherFmtChar, spec.(before := if width == 0 then -1 else width), w, args)
  {
    hide Printed, Digits;
    if width == 0 {
      assert AsWidth(width) + w == w;
    } else {
      WidthIsRead(spec, width, w, args);
    }
  }

  lemma {:induction false} DecimalStart(n: nat)
    ensures Digits(n, 10, false) != "" && '0' <= Digits(n, 10, false)[0] <= '9'
  {
    if n >= 10 {
      DecimalStart(n / 10);
    }
  }

  /** Only a zero flag can make the first character a zero: no width starts with one. */
  lemma AfterPercent(zero: bool, width: nat, w: string, args: seq<Arg>)
    requires w != "" && w[0] != '0' && w[0] != '%'
    ensures Printed(FirstFmtChar, NOTHING, (if zero then "0" else "") + (AsWidth(width) + w), args) ==
      Printed(OtherFmtChar, NOTHING.(zero := zero), AsWidth(width) + w, args)
  {
    hide Digits;
    var rest := AsWidth(width) + w;
    if zero {
      assert ("0" + rest)[1..] == rest;
    } else {
      if width > 0 {
        NoLeadingZero(width, 10, false);
        DecimalStart(width);
      }
      assert "" + rest == rest && rest[0] != '0' && rest[0] != '%';
    }
  }

  lemma OpensDirective(w: string, args: seq<Arg>)
    ensures Printed(Chars, NOTHING, "%" + w, args) == Printed(FirstFmtChar, NOTHING, w, args)
  {
    assert ("%" + w)[1..] == w;
  }

  lemma StartOfTail(p: Piece, w: string)
    requires p.Directive? && Proper(p)
    ensures var tail := AsPrecision(p.precision) + (Ending(p.long, p.letter) + w);
      tail != "" && tail[0] != '0' && tail[0] != '%'
  {
  }

  lemma DirectiveIsRead(p: Piece, w: string, args: seq<Arg>)
    requires p.Directive? && Proper(p)
    ensures Printed(Chars, NOTHING, Spelled(p) + w, [p.arg] + args) ==
      Then(Meaning(p), Printed(Chars, NOTHING, w, args))
  {
    hide Converted, Digits, AsWidth, AsPrecision, Printed;
    var end := Ending(p.long, p.letter) + w;
    var tail := AsPrecision(p.precision) + end;
    var body := (if p.zero then "0" else "") + (AsWidth(p.width) + tail);
    var spec := NOTHING.(zero := p.zero);
    assert Spelled(p) + w == "%" + body;
    OpensDirective(body, [p.arg] + args);
    StartOfTail(p, w);
    AfterPercent(p.zero, p.width, tail, [p.arg] + args);
    AfterZero(spec, p.width, tail, [p.arg] + args);
    AfterWidth(spec.(before := SpecOf(p).before), p.precision, end, [p.arg] + args);
    EndingIsRead(SpecOf(p).(long := false), p.long, p.letter, p.arg, w, args);
  }

  lemma NothingFirst(o: Option<string>)
    ensures Then("", o) == o
  {
    assert o.Some? ==> "" + o.value == o.value;
  }

  lemma PlainIsRead(p: Piece, w: string, args: seq<Arg>)
    requires !p.Directive? && Proper(p)
    ensures Printed(Chars, NOTHING, Spelled(p) + w, args) == Then(Meaning(p), Printed(Chars, NOTHING, w, args))
  {
    if p.Percent? {
      assert Spelled(p) + w == "%" + ("%" + w);
      OpensDirective("%" + w, args);
      assert ("%" + w)[1..] == w;
    } else if p.Unknown? {
      assert Spelled(p) + w == "%" + ([p.c] + w) && ([p.c] + w)[1..] == w;
      OpensDirective([p.c] + w, args);
      NothingFirst(Printed(Chars, NOTHING, w, args));
    } else {
      assert ([p.c] + w)[1..] == w;
    }
  }

  /** Every format, written out, prints the meanings of its parts in order. */
  lemma {:induction false} FormatPrints(ps: seq<Piece>)
    requires forall i :: 0 <= i < |ps| ==> Proper(ps[i])
    ensures Printed(Chars, NOTHING, Format(ps), Args(ps)) == Some(Meanings(ps))
  {
    hide Meaning;
    if ps != [] {
      var rest := Format(ps[1..]);
      FormatPrints(ps[1..]);
      if ps[0].Directive? {
        DirectiveIsRead(ps[0], rest, Args(ps[1..]));
      } else {
        PlainIsRead(ps[0], rest, Args(ps[1..]));
      }
    }
  }

  // ---- What directives print ----

  predicate Integral(letter: char) {
    letter in "diuoxX"
  }

  /** The text without padding. */
  function Unpadded(p: Piece): string
    requires p.Directive? && Proper(p)
  {
    Meaning(p.(width := 0, zero := false))
  }

  /** The text of an integer reads back, in the base of its letter, as the signed value for d and i and
      as the unsigned one for the others. */
  lemma DirectiveReads(p: Piece)
    requires p.Directive? && Proper(p) && Integral(p.letter)
    ensures p.letter == 'd' || p.letter == 'i' ==> Read(Meaning(p), 10) == Signed(p.arg.v)
    ensures p.letter == 'u' ==> Read(Meaning(p), 10) == p.arg.v
    ensures p.letter == 'o' ==> Read(Meaning(p), 8) == p.arg.v
    ensures p.letter == 'x' || p.letter == 'X' ==> Read(Meaning(p), 16) == p.arg.v
  {
    hide Field, Read;
    var signed := p.letter == 'd' || p.letter == 'i';
    FieldReads(p.arg.v, p.zero, SpecOf(p).before, BaseOf(p.letter), signed, p.letter == 'X');
  }

  lemma {:induction false} CaseOfDigits(v: nat, b: Base, upper: bool)
    ensures forall c :: c in Digits(v, b, upper) ==>
      if upper then '0' <= c <= '9' || 'A' <= c <= 'F' else '0' <= c <= '9' || 'a' <= c <= 'f'
  {
    if v >= b {
      CaseOfDigits(v / b, b, upper);
    }
  }

  lemma FieldChars(v: U32, zero: bool, width: int, b: Base, signed: bool, upper: bool)
    ensures forall c :: c in Field(v, zero, width, b, signed, upper) ==>
      c == '-' || (c == ' ' && !zero) || c in Digits(Magnitude(v, signed), b, upper) || (c == '0' && zero)
  {
    hide Digits, Magnitude, Count;
  }

  /** Only X prints capitals, and it prints no small letters; with the zero flag there is no blank. */
  lemma DirectiveChars(p: Piece)
    requires p.Directive? && Proper(p) && Integral(p.letter)
    ensures forall c :: c in Meaning(p) ==> !(if p.letter == 'X' then 'a' <= c <= 'z' else 'A' <= c <= 'Z')
    ensures p.zero ==> ' ' !in Meaning(p)
  {
    hide Field, Digits, Magnitude;
    var signed := p.letter == 'd' || p.letter == 'i';
    FieldChars(p.arg.v, p.zero, SpecOf(p).before, BaseOf(p.letter), signed, p.letter == 'X');
    CaseOfDigits(Magnitude(p.arg.v, signed), BaseOf(p.letter), p.letter == 'X');
  }

  lemma RepeatAsLong(c: char, n: int)
    ensures Repeat(c, n) == Repeat(c, |Repeat(c, n)|)
  {
  }

  lemma FieldPads(v: U32, width: int, b: Base, signed: bool, upper: bool)
    ensures var text, bare := Field(v, false, width, b, signed, upper), Field(v, false, -1, b, signed, upper);
      |text| >= |bare| && text == Repeat(' ', |text| - |bare|) + bare
    ensures Field(v, true, -1, b, signed, upper) == Field(v, false, -1, b, signed, upper)
  {
    hide Digits, Magnitude, Count;
    FieldWidth(v, false, width, b, signed, upper);
    FieldWidth(v, false, -1, b, signed, upper);
    var sign := if Negative(v, signed) then "-" else "";
    var digits := Digits(Magnitude(v, signed), b, upper);
    assert Field(v, false, -1, b, signed, upper) == sign + digits;
    assert Field(v, true, -1, b, signed, upper) == sign + digits;
    assert Field(v, false, width, b, signed, upper) ==
      Repeat(' ', Padding(v, width, b, signed)) + (sign + digits);
    RepeatAsLong(' ', Padding(v, width, b, signed));
  }

  /** The text is as wide as asked, or as it has to be; blanks come before it, unless it is an integer
      with the zero flag. */
  lemma DirectivePads(p: Piece)
    requires p.Directive? && Proper(p)
    ensures |Meaning(p)| == if p.width > |Unpadded(p)| then p.width else |Unpadded(p)|
    ensures !(p.zero && Integral(p.letter)) ==>
      Meaning(p) == Repeat(' ', |Meaning(p)| - |Unpadded(p)|) + Unpadded(p)
  {
    hide Field;
    if Integral(p.letter) {
      var signed, b := p.letter == 'd' || p.letter == 'i', BaseOf(p.letter);
      FieldPads(p.arg.v, SpecOf(p).before, b, signed, p.letter == 'X');
      FieldWidth(p.arg.v, p.zero, SpecOf(p).before, b, signed, p.letter == 'X');
      FieldWidth(p.arg.v, false, -1, b, signed, p.letter == 'X');
    } else if p.letter == 'c' {
      RepeatAsLong(' ', SpecOf(p).before - 1);
      assert Unpadded(p) == [(p.arg.v % 256) as char];
    } else {
      RepeatAsLong(' ', SpecOf(p).before - |p.arg.s|);
      assert Unpadded(p) == p.arg.s;
    }
  }

  /** Without padding, an integer has no superfluous zero and a minus sign if it is negative; a character
      is the low byte of its argument, and a string is itself. */
  lemma UnpaddedIs(p: Piece)
    requires p.Directive? && Proper(p)
    ensures p.letter == 'c' ==> Unpadded(p) == [(p.arg.v % 256) as char]
    ensures p.letter == 's' ==> Unpadded(p) == p.arg.s
    ensures Integral(p.letter) ==>
      var text := Unpadded(p);
      var negative := (p.letter == 'd' || p.letter == 'i') && Signed(p.arg.v) < 0;
      text != "" && (text[0] == '-' <==> negative) &&
      var digits := if negative then text[1..] else text;
      digits != "" && (digits[0] == '0' <==> p.arg.v == 0)
  {
    if Integral(p.letter) {
      var signed := p.letter == 'd' || p.letter == 'i';
      NoLeadingZero(Magnitude(p.arg.v, signed), BaseOf(p.letter), p.letter == 'X');
      StartsWithDigit(Magnitude(p.arg.v, signed), BaseOf(p.letter), p.letter == 'X');
    }
  }

  /** A precision and an l change nothing. */
  lemma DirectiveIgnores(p: Piece)
    requires p.Directive? && Proper(p)
    ensures Meaning(p) == Meaning(p.(precision := None, long := false))
  {
  }
}
