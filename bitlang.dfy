/** The bitlang token compiler (examples/bitlang/src/expression.rs): a string is
    split at Unicode white space and every token becomes an `Item`, either one of
    27 keywords or a signed integer literal in radix 2, 8, 10 or 16. */
module Bitlang {
  import opened Results
  import opened Ints

  /** `isize` on a 64-bit target. */
  const ISIZE_MIN: int := -0x8000_0000_0000_0000
  const ISIZE_MAX: int := 0x7fff_ffff_ffff_ffff

  type isize = v: int | -0x8000_0000_0000_0000 <= v <= 0x7fff_ffff_ffff_ffff

  predicate InIsize(v: int) { ISIZE_MIN <= v <= ISIZE_MAX }

  datatype Item =
    | Add | Sub | Mul | Div | Mod | ShRight | ShLeft
    | Eq | Gt | Lt | Ge | Le | Or | And | Not
    | BitOr | BitAnd | BitXor | BitNot | Abs
    | VarX | VarY | VarW | VarH | VarT | Dup | Xch
    | Num(n: isize)

  /** `std::num::IntErrorKind`, restricted to the kinds `from_str_radix` produces. */
  datatype IntErrorKind = Empty | InvalidDigit | PosOverflow | NegOverflow

  datatype CompileError =
    | UnknownToken(token: string)
    | InvalidInteger(token: string, kind: IntErrorKind)

  /** The keyword table of `compile`; every key is a distinct string. */
  const KEYWORDS: map<string, Item> := map[
    "+" := Add, "-" := Sub, "*" := Mul, "/" := Div, "%" := Mod,
    ">>" := ShRight, "<<" := ShLeft, "=" := Eq, ">" := Gt, "<" := Lt,
    ">=" := Ge, "<=" := Le, "||" := Or, "&&" := And, "!" := Not,
    "|" := BitOr, "&" := BitAnd, "^" := BitXor, "~" := BitNot, "abs" := Abs,
    "x" := VarX, "y" := VarY, "w" := VarW, "h" := VarH, "t" := VarT,
    "dup" := Dup, "xch" := Xch]

  lemma KeywordsAreShort()
    ensures forall tok | tok in KEYWORDS :: 1 <= |tok| <= 3 && !KEYWORDS[tok].Num?
  {
  }

  // ---------------------------------------------------------------------------
  // str::split_whitespace

  /** `char::is_whitespace`: the Unicode White_Space property. */
  predicate IsWhitespace(c: char)
  {
    var n := c as int;
    (0x09 <= n <= 0x0d) || n == 0x20 || n == 0x85 || n == 0xa0 || n == 0x1680
    || (0x2000 <= n <= 0x200a) || n == 0x2028 || n == 0x2029 || n == 0x202f
    || n == 0x205f || n == 0x3000
  }

  /** A token produced by `split_whitespace`: non-empty, without white space. */
  predicate IsWord(w: string)
  {
    |w| > 0 && forall i | 0 <= i < |w| :: !IsWhitespace(w[i])
  }

  /** Length of the run of non-white-space characters at the start of `s`. */
  function WordLength(s: string): (n: nat)
    ensures n <= |s|
    ensures forall i | 0 <= i < n :: !IsWhitespace(s[i])
    ensures n < |s| ==> IsWhitespace(s[n])
  {
    if |s| == 0 || IsWhitespace(s[0]) then 0 else 1 + WordLength(s[1..])
  }

  /** `s.split_whitespace()`, as the sequence of tokens it yields. */
  function Words(s: string): (ws: seq<string>)
    ensures forall i | 0 <= i < |ws| :: IsWord(ws[i])
    decreases |s|
  {
    if |s| == 0 then []
    else if IsWhitespace(s[0]) then Words(s[1..])
    else
      var n := WordLength(s);
      [s[..n]] + Words(s[n..])
  }

  /** Tokens joined by single spaces: the inverse of `Words` on words. */
  function Unwords(ws: seq<string>): string
  {
    if |ws| == 0 then ""
    else if |ws| == 1 then ws[0]
    else ws[0] + " " + Unwords(ws[1..])
  }

  lemma {:induction false} WordLengthOfWord(w: string, rest: string)
    requires IsWord(w)
    requires rest == [] || IsWhitespace(rest[0])
    ensures WordLength(w + rest) == |w|
    decreases |w|
  {
    assert (w + rest)[1..] == w[1..] + rest;
    if |w| > 1 {
      WordLengthOfWord(w[1..], rest);
    }
  }

  /** A word followed by white space (or nothing) is split off as one token. */
  lemma WordsAfterWord(w: string, rest: string)
    requires IsWord(w)
    requires rest == [] || IsWhitespace(rest[0])
    ensures Words(w + rest) == [w] + Words(rest)
  {
    WordLengthOfWord(w, rest);
    assert (w + rest)[..|w|] == w;
    assert (w + rest)[|w|..] == rest;
  }

  lemma WordsAfterSpace(rest: string)
    ensures Words(" " + rest) == Words(rest)
  {
    assert (" " + rest)[1..] == rest;
  }

  /** Splitting words joined by spaces gives the words back. */
  lemma {:induction false} WordsOfUnwords(ws: seq<string>)
    requires forall i | 0 <= i < |ws| :: IsWord(ws[i])
    ensures Words(Unwords(ws)) == ws
  {
    if |ws| == 1 {
      WordsAfterWord(ws[0], []);
      assert ws[0] + [] == ws[0];
    } else if |ws| > 1 {
      var rest := Unwords(ws[1..]);
      calc {
        Words(Unwords(ws));
      == { assert Unwords(ws) == ws[0] + (" " + rest); }
        Words(ws[0] + (" " + rest));
      == { WordsAfterWord(ws[0], " " + rest); }
        [ws[0]] + Words(" " + rest);
      == { WordsAfterSpace(rest); }
        [ws[0]] + Words(rest);
      == { WordsOfUnwords(ws[1..]); }
        [ws[0]] + ws[1..];
      }
    }
  }

  // ---------------------------------------------------------------------------
  // isize::from_str_radix

  /** `char::to_digit(radix)`. */
  function ToDigit(c: char, radix: nat): (d: Option<nat>)
    requires 2 <= radix <= 36
    ensures d.Some? ==> d.value < radix
    ensures d.Some? ==> ('0' <= c <= '9' || 'a' <= c <= 'z' || 'A' <= c <= 'Z')
    ensures radix <= 10 && d.Some? ==> '0' <= c <= '9' && d.value == c as int - '0' as int
  {
    var v :=
      if '0' <= c <= '9' then c as int - '0' as int
      else if 'a' <= c <= 'z' then c as int - 'a' as int + 10
      else if 'A' <= c <= 'Z' then c as int - 'A' as int + 10
      else radix;
    if v < radix then Some(v) else None
  }

  /** The lower-case digit for `d`, as `{:x}` formatting prints it. */
  function DigitChar(d: nat): char
    requires d < 36
  {
    if d < 10 then ('0' as int + d) as char else ('a' as int + d - 10) as char
  }

  lemma ToDigitChar(d: nat, radix: nat)
    requires 2 <= radix <= 36 && d < radix
    ensures ToDigit(DigitChar(d), radix) == Some(d)
  {
  }

  predicate AllDigits(ds: string, radix: nat)
    requires 2 <= radix <= 36
  {
    forall i | 0 <= i < |ds| :: ToDigit(ds[i], radix).Some?
  }

  /** `v` with the sign of the literal. */
  function Signed(v: nat, positive: bool): int
  {
    if positive then v as int else -(v as int)
  }

  /** One step of the digit loop: multiply by the radix, then add or subtract. */
  function Step(acc: int, radix: nat, d: nat, positive: bool): int
  {
    if positive then acc * radix + d else acc * radix - d
  }

  lemma StepSigned(v: nat, radix: nat, d: nat, positive: bool)
    ensures Step(Signed(v, positive), radix, d, positive) == Signed(v * radix + d, positive)
  {
    if !positive {
      assert (-(v as int)) * radix == -(v * radix);
    }
  }

  /** The positional value of a digit string, most significant digit first. */
  function Value(ds: string, radix: nat): nat
    requires 2 <= radix <= 36 && AllDigits(ds, radix)
  {
    if |ds| == 0 then 0
    else
      AllDigitsPrefix(ds, radix, |ds| - 1);
      Shift(Value(ds[..|ds| - 1], radix), radix, ToDigit(ds[|ds| - 1], radix).value)
  }

  /** Appends digit `d` to the positional value `v`. */
  function Shift(v: nat, radix: nat, d: nat): nat
  {
    v * radix + d
  }

  lemma AllDigitsPrefix(ds: string, radix: nat, n: nat)
    requires 2 <= radix <= 36 && AllDigits(ds, radix) && n <= |ds|
    ensures AllDigits(ds[..n], radix)
  {
    assert forall i | 0 <= i < n :: ds[..n][i] == ds[i];
  }

  /** The digit loop of `from_str_radix`, left to right: each character is first
      checked to be a digit, then the accumulator is multiplied by the radix and
      the digit added (for a positive number) or subtracted (for a negative one),
      failing on the first overflow of `isize`. */
  function Accumulate(ds: string, radix: nat, positive: bool): (r: Result<isize, IntErrorKind>)
    requires 2 <= radix <= 36
    ensures r.Ok? ==> AllDigits(ds, radix)
    ensures r.Ok? ==> r.value == Signed(Value(ds, radix), positive)
    ensures r.Err? ==> r.error == InvalidDigit || r.error == (if positive then PosOverflow else NegOverflow)
    decreases |ds|
  {
    if |ds| == 0 then Ok(0)
    else
      var init := ds[..|ds| - 1];
      match Accumulate(init, radix, positive)
      case Err(e) => Err(e)
      case Ok(acc) =>
        match ToDigit(ds[|ds| - 1], radix)
        case None => Err(InvalidDigit)
        case Some(d) =>
          assert forall i | 0 <= i < |ds| :: ds[i] == if i < |init| then init[i] else ds[|ds| - 1];
          StepSigned(Value(init, radix), radix, d, positive);
          var next := Step(acc, radix, d, positive);
          if InIsize(next) then Ok(next)
          else if positive then Err(PosOverflow)
          else Err(NegOverflow)
  }

  /** `isize::from_str_radix(src, radix)`: an empty string is `Empty`, a lone sign
      is `InvalidDigit`, and one leading `+` or `-` is accepted. */
  function FromStrRadix(src: string, radix: nat): (r: Result<isize, IntErrorKind>)
    requires 2 <= radix <= 36
    ensures r == Err(Empty) <==> |src| == 0
  {
    if |src| == 0 then Err(Empty)
    else if (src[0] == '+' || src[0] == '-') && |src| == 1 then Err(InvalidDigit)
    else if src[0] == '+' then Accumulate(src[1..], radix, true)
    else if src[0] == '-' then Accumulate(src[1..], radix, false)
    else Accumulate(src, radix, true)
  }

  lemma {:induction false} ValuePrefix(ds: string, radix: nat)
    requires 2 <= radix <= 36 && AllDigits(ds, radix) && |ds| > 0
    ensures AllDigits(ds[..|ds| - 1], radix)
    ensures Value(ds[..|ds| - 1], radix) <= Value(ds, radix)
  {
    AllDigitsPrefix(ds, radix, |ds| - 1);
    var v := Value(ds[..|ds| - 1], radix);
    assert v * radix >= v;
  }

  /** One more digit after a prefix that parsed: the result is the value of
      the whole string, or the overflow error of its sign. */
  lemma AccumulateLast(ds: string, radix: nat, positive: bool)
    requires 2 <= radix <= 36 && |ds| > 0 && AllDigits(ds, radix)
    requires Accumulate(ds[..|ds| - 1], radix, positive).Ok?
    ensures var v := Signed(Value(ds, radix), positive);
      Accumulate(ds, radix, positive)
      == if InIsize(v) then Ok(v) else Err(if positive then PosOverflow else NegOverflow)
  {
    var init := ds[..|ds| - 1];
    assert AllDigits(init, radix);
    var d := ToDigit(ds[|ds| - 1], radix).value;
    StepSigned(Value(init, radix), radix, d, positive);
  }

  /** All digits valid and the value within `isize`: the parse returns the value. */
  lemma {:induction false} AccumulateInRange(ds: string, radix: nat, positive: bool)
    requires 2 <= radix <= 36 && AllDigits(ds, radix)
    requires InIsize(Signed(Value(ds, radix), positive))
    ensures Accumulate(ds, radix, positive) == Ok(Signed(Value(ds, radix), positive))
    decreases |ds|
  {
    if |ds| > 0 {
      ValuePrefix(ds, radix);
      AccumulateInRange(ds[..|ds| - 1], radix, positive);
      AccumulateLast(ds, radix, positive);
    }
  }

  /** All digits valid but the value outside `isize`: the parse overflows. */
  lemma {:induction false} AccumulateOutOfRange(ds: string, radix: nat, positive: bool)
    requires 2 <= radix <= 36 && AllDigits(ds, radix)
    requires !InIsize(Signed(Value(ds, radix), positive))
    ensures Accumulate(ds, radix, positive) == Err(if positive then PosOverflow else NegOverflow)
    decreases |ds|
  {
    var init := ds[..|ds| - 1];
    ValuePrefix(ds, radix);
    if InIsize(Signed(Value(init, radix), positive)) {
      AccumulateInRange(init, radix, positive);
      AccumulateLast(ds, radix, positive);
    } else {
      AccumulateOutOfRange(init, radix, positive);
    }
  }

  /** The first character that is not a digit makes the parse fail with
      `InvalidDigit`, provided the digits before it did not overflow. */
  lemma {:induction false} AccumulateInvalidDigit(ds: string, radix: nat, positive: bool, i: nat)
    requires 2 <= radix <= 36 && i < |ds|
    requires AllDigits(ds[..i], radix) && ToDigit(ds[i], radix).None?
    requires InIsize(Signed(Value(ds[..i], radix), positive))
    ensures Accumulate(ds, radix, positive) == Err(InvalidDigit)
    decreases |ds|
  {
    var init := ds[..|ds| - 1];
    if |ds| == i + 1 {
      assert init == ds[..i];
      AccumulateInRange(init, radix, positive);
    } else {
      assert init[..i] == ds[..i] && init[i] == ds[i];
      AccumulateInvalidDigit(init, radix, positive, i);
    }
  }

  /** Appending a digit multiplies the value by the radix and adds the digit. */
  lemma ValueSnoc(init: string, c: char, radix: nat)
    requires 2 <= radix <= 36 && AllDigits(init, radix) && ToDigit(c, radix).Some?
    ensures AllDigits(init + [c], radix)
    ensures Value(init + [c], radix) == Value(init, radix) * radix + ToDigit(c, radix).value
  {
    var s := init + [c];
    assert forall i | 0 <= i < |s| :: s[i] == if i < |init| then init[i] else c;
    assert s[..|s| - 1] == init;
  }

  lemma DivModRadix(n: nat, radix: nat)
    requires 2 <= radix <= n
    ensures (n / radix) * radix + n % radix == n
    ensures 1 <= n / radix < n
  {
    MulMono(2, radix, n / radix);
  }

  /** The digits of `n`, most significant first, without leading zeros. */
  function Digits(n: nat, radix: nat): (s: string)
    requires 2 <= radix <= 36
    ensures |s| >= 1 && AllDigits(s, radix) && Value(s, radix) == n
    decreases n
  {
    if n < radix then
      ToDigitChar(n, radix);
      [DigitChar(n)]
    else
      DivModRadix(n, radix);
      ToDigitChar(n % radix, radix);
      ValueSnoc(Digits(n / radix, radix), DigitChar(n % radix), radix);
      Digits(n / radix, radix) + [DigitChar(n % radix)]
  }

  /** `n` written in `radix` with a leading `-` when negative. */
  function Format(n: isize, radix: nat): string
    requires 2 <= radix <= 36
  {
    if n < 0 then "-" + Digits(-(n as int), radix) else Digits(n, radix)
  }

  /** `from_str_radix` reads back every `isize` written in its radix. */
  lemma FromStrRadixOfFormat(n: isize, radix: nat)
    requires 2 <= radix <= 36
    ensures FromStrRadix(Format(n, radix), radix) == Ok(n)
  {
    var ds := Digits(if n < 0 then -(n as int) else n, radix);
    assert ToDigit(ds[0], radix).Some?;
    if n < 0 {
      assert ("-" + ds)[1..] == ds;
      AccumulateInRange(ds, radix, false);
    } else {
      AccumulateInRange(ds, radix, true);
    }
  }

  // ---------------------------------------------------------------------------
  // compile

  predicate StartsWith(s: string, p: string)
  {
    |p| <= |s| && s[..|p|] == p
  }

  /** The radix prefix of a literal: `0b`, `0o` or `0x`, else decimal. */
  function Radix(num: string): (r: (string, nat))
    ensures r.1 in {2, 8, 10, 16}
    ensures r.1 == 10 ==> r.0 == num
    ensures r.1 != 10 ==> |num| >= 2 && num[0] == '0' && r.0 == num[2..]
  {
    if StartsWith(num, "0b") then (num[2..], 2)
    else if StartsWith(num, "0o") then (num[2..], 8)
    else if StartsWith(num, "0x") then (num[2..], 16)
    else (num, 10)
  }

  /** `n * sign` on `isize`; only `isize::MIN * -1` leaves the range, and it
      wraps back to `isize::MIN` as a release build does. */
  function MulSign(n: isize, sign: int): (r: isize)
    requires sign == 1 || sign == -1
    ensures n != ISIZE_MIN || sign == 1 ==> r == (n as int) * sign
  {
    if sign == 1 then n else if n == ISIZE_MIN then ISIZE_MIN else -(n as int)
  }

  /** One token of `compile`: a keyword, else an integer literal. */
  function CompileToken(tok: string): (r: Result<Item, CompileError>)
    ensures r.Err? ==> r.error.token == tok
    ensures r.Err? && r.error.InvalidInteger? ==> r.error.kind != InvalidDigit
    ensures tok in KEYWORDS ==> r == Ok(KEYWORDS[tok])
    ensures tok !in KEYWORDS && r.Ok? ==> r.value.Num?
  {
    if tok in KEYWORDS then Ok(KEYWORDS[tok]) else CompileLiteral(tok)
  }

  /** A token that is not a keyword: it must start with `+`, `-` or a digit; a
      parse failure of kind `InvalidDigit` is reported as an unknown token, any
      other kind as an invalid integer. */
  function CompileLiteral(tok: string): (r: Result<Item, CompileError>)
    ensures r.Err? ==> r.error.token == tok
    ensures r.Err? && r.error.InvalidInteger? ==> r.error.kind != InvalidDigit
    ensures r.Ok? ==> r.value.Num?
  {
    if |tok| == 0 || !(tok[0] == '+' || tok[0] == '-' || '0' <= tok[0] <= '9') then
      Err(UnknownToken(tok))
    else
      var sign := if tok[0] == '-' then -1 else 1;
      var num := if tok[0] == '+' || tok[0] == '-' then tok[1..] else tok;
      var (digits, radix) := Radix(num);
      match FromStrRadix(digits, radix)
      case Ok(n) => Ok(Num(MulSign(n, sign)))
      case Err(InvalidDigit) => Err(UnknownToken(tok))
      case Err(kind) => Err(InvalidInteger(tok, kind))
  }

  /** A token that is not a keyword and does not start with a sign or a digit
      is an unknown token. */
  lemma UnknownStart(tok: string)
    requires tok !in KEYWORDS
    requires |tok| == 0 || !(tok[0] == '+' || tok[0] == '-' || '0' <= tok[0] <= '9')
    ensures CompileToken(tok) == Err(UnknownToken(tok))
  {
  }

  /** The prefix that selects `radix` in a literal. */
  function RadixPrefix(radix: nat): string
  {
    if radix == 2 then "0b" else if radix == 8 then "0o" else if radix == 16 then "0x" else ""
  }

  /** The prefix of a literal selects its radix, and the digits follow it. */
  lemma RadixOfPrefixed(radix: nat, digits: string)
    requires radix in {2, 8, 10, 16} && |digits| >= 1 && AllDigits(digits, radix)
    ensures Radix(RadixPrefix(radix) + digits) == (digits, radix)
  {
    var num := RadixPrefix(radix) + digits;
    if radix == 10 {
      assert num == digits;
      if |num| >= 2 {
        assert ToDigit(digits[1], radix).Some?;
        assert num[..2][1] == digits[1];
      }
    } else {
      assert num[..2] == RadixPrefix(radix) && num[2..] == digits;
    }
  }

  /** A sign followed by a literal that starts with a digit and parses to `n`
      compiles to `Num(n)` with the sign applied. */
  lemma SignedNumber(sign: string, num: string, n: isize)
    requires sign == "" || sign == "+" || sign == "-"
    requires |num| >= 1 && '0' <= num[0] <= '9'
    requires FromStrRadix(Radix(num).0, Radix(num).1) == Ok(n)
    ensures CompileLiteral(sign + num) == Ok(Num(MulSign(n, if sign == "-" then -1 else 1)))
  {
    var tok := sign + num;
    assert tok[0] == (if sign == "" then num[0] else sign[0]);
    assert (if tok[0] == '+' || tok[0] == '-' then tok[1..] else tok) == num;
  }

  /** A literal made of an optional sign, a radix prefix and digits whose
      value fits `isize` compiles to `Num` of the signed value. */
  lemma SignedLiteral(sign: string, radix: nat, digits: string)
    requires sign == "" || sign == "+" || sign == "-"
    requires radix in {2, 8, 10, 16} && |digits| >= 1 && AllDigits(digits, radix)
    requires Value(digits, radix) <= ISIZE_MAX
    ensures CompileLiteral(sign + RadixPrefix(radix) + digits)
      == Ok(Num(Signed(Value(digits, radix), sign != "-")))
  {
    var num := RadixPrefix(radix) + digits;
    var v := Value(digits, radix);
    ConcatAssoc(sign, RadixPrefix(radix), digits);
    assert ToDigit(digits[0], radix).Some?;
    assert FromStrRadix(digits, radix) == Ok(v) by {
      AccumulateInRange(digits, radix, true);
    }
    RadixOfPrefixed(radix, digits);
    SignedNumber(sign, num, v);
    assert MulSign(v, if sign == "-" then -1 else 1) == Signed(v, sign != "-");
  }

  lemma ConcatAssoc(a: string, b: string, c: string)
    ensures a + b + c == a + (b + c)
  {
  }

  function Pow16(n: nat): nat
  {
    if n == 0 then 1 else 16 * Pow16(n - 1)
  }

  lemma DigitStepBound(v: nat, d: nat, radix: nat, p: nat)
    requires v < p && d < radix <= 16
    ensures v * radix + d < 16 * p
  {
    assert (v + 1) * radix == v * radix + radix;
    MulMono(v + 1, p, radix);
    MulMono(radix, 16, p);
  }

  lemma {:induction false} ValueBelowPow16(ds: string, radix: nat)
    requires 2 <= radix <= 16 && AllDigits(ds, radix)
    ensures Value(ds, radix) < Pow16(|ds|)
    decreases |ds|
  {
    if |ds| > 0 {
      var init := ds[..|ds| - 1];
      ValuePrefix(ds, radix);
      ValueBelowPow16(init, radix);
      var v := Value(init, radix);
      var d := ToDigit(ds[|ds| - 1], radix).value;
      assert Value(ds, radix) == v * radix + d;
      DigitStepBound(v, d, radix, Pow16(|init|));
    }
  }

  /** Any optionally signed literal of seven decimal, binary, octal or
      hexadecimal digits is a single token that compiles to a number. */
  lemma SevenDigitLiteral(sign: string, radix: nat, digits: string)
    requires sign == "" || sign == "+" || sign == "-"
    requires radix in {2, 8, 10, 16} && |digits| == 7 && AllDigits(digits, radix)
    ensures Words(sign + RadixPrefix(radix) + digits) == [sign + RadixPrefix(radix) + digits]
    ensures CompileToken(sign + RadixPrefix(radix) + digits).Ok?
    ensures CompileToken(sign + RadixPrefix(radix) + digits).value.Num?
  {
    var tok := sign + RadixPrefix(radix) + digits;
    assert IsWord(tok) by {
      forall i | 0 <= i < |tok| ensures !IsWhitespace(tok[i]) {
        var k := |sign + RadixPrefix(radix)|;
        if i >= k {
          assert tok[i] == digits[i - k] && ToDigit(digits[i - k], radix).Some?;
        }
      }
    }
    WordsAfterWord(tok, []);
    assert tok + [] == tok;
    KeywordsAreShort();
    assert CompileToken(tok) == CompileLiteral(tok);
    assert Value(digits, radix) < 0x1000_0000 by {
      ValueBelowPow16(digits, radix);
      assert Pow16(7) == 0x1000_0000;
    }
    SignedLiteral(sign, radix, digits);
  }

  /** `compile`: every token of `s.split_whitespace()`, in order, becomes one
      item; the first token that fails aborts with its error. */
  method Compile(s: string) returns (r: Result<seq<Item>, CompileError>)
    ensures r.Ok? <==> forall i | 0 <= i < |Words(s)| :: CompileToken(Words(s)[i]).Ok?
    ensures r.Ok? ==> |r.value| == |Words(s)|
    ensures r.Ok? ==> forall i | 0 <= i < |r.value| :: CompileToken(Words(s)[i]) == Ok(r.value[i])
    ensures r.Err? ==> exists i | 0 <= i < |Words(s)| ::
      CompileToken(Words(s)[i]) == Err(r.error) && forall j | 0 <= j < i :: CompileToken(Words(s)[j]).Ok?
  {
    var tokens := Words(s);
    var expression: seq<Item> := [];
    for k := 0 to |tokens|
      invariant |expression| == k
      invariant forall i | 0 <= i < k :: CompileToken(tokens[i]) == Ok(expression[i])
    {
      match CompileToken(tokens[k])
      case Ok(item) =>
        expression := expression + [item];
      case Err(e) =>
        assert tokens[k] == Words(s)[k] && !CompileToken(Words(s)[k]).Ok?;
        return Err(e);
    }
    return Ok(expression);
  }
}
