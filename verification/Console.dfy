/** Text output (kern/include/video.c and kern/include/printf.c): the digit printers and the
    format interpreter. */
module Console {
  import opened Bits

  // ------------------------------------------------------------------
  // Numerals
  // ------------------------------------------------------------------

  predicate Base(base: nat) { base == 10 || base == 16 }

  function Glyph(digit: nat): char
    requires digit < 16
  {
    "0123456789ABCDEF"[digit]
  }

  function Value(c: char): nat {
    if '0' <= c <= '9' then c as nat - '0' as nat
    else if 'A' <= c <= 'F' then c as nat - 'A' as nat + 10
    else 0
  }

  /** The digits of a number, most significant first; none for 0. */
  function Digits(n: nat, base: nat): string
    requires Base(base)
  {
    if n == 0 then "" else Digits(n / base, base) + [Glyph(n % base)]
  }

  /** What the printers write. */
  function Numeral(n: nat, base: nat): string
    requires Base(base)
  {
    if n == 0 then "0" else Digits(n, base)
  }

  /** Reading a numeral back. */
  function Parse(s: string, base: nat): nat {
    if s == "" then 0 else Parse(s[..|s| - 1], base) * base + Value(s[|s| - 1])
  }

  lemma GlyphValue(d: nat)
    requires d < 16
    ensures Value(Glyph(d)) == d && (Glyph(d) == '0' <==> d == 0)
  {
  }

  lemma {:induction false} ParseDigits(n: nat, base: nat)
    requires Base(base)
    ensures Parse(Digits(n, base), base) == n
    ensures n > 0 ==> Digits(n, base) != "" && Digits(n, base)[0] != '0'
  {
    if n > 0 {
      hide Value, Glyph, Parse, Digits, Base;
      var q, d := n / base, n % base;
      LastDigit(n, base);
      DigitsStep(n, base);
      ParseDigits(q, base);
      ParseLast(Digits(q, base), Glyph(d), base);
      NoDigits(n, base);
    }
  }

  lemma LastDigit(n: nat, base: nat)
    requires Base(base)
    ensures n % base < 16 && n / base * base + n % base == n && (n > 0 ==> n / base < n)
    ensures Value(Glyph(n % base)) == n % base && (Glyph(n % base) == '0' <==> n % base == 0)
  {
    GlyphValue(if base == 10 then n % 10 else n % 16);
  }

  lemma ParseLast(s: string, c: char, base: nat)
    ensures Parse(s + [c], base) == Parse(s, base) * base + Value(c)
  {
    assert (s + [c])[..|s|] == s;
  }

  /** Round trip: the text written for a number reads back as that number, and it has no leading
      zero unless it is "0". */
  lemma NumeralRoundTrip(n: nat, base: nat)
    requires Base(base)
    ensures Parse(Numeral(n, base), base) == n
    ensures Numeral(n, base)[0] == '0' ==> Numeral(n, base) == "0"
  {
    ParseDigits(n, base);
    if n == 0 {
      assert "0"[..0] == "";
    }
  }

  /** The decimal numeral of a 64-bit pattern read as a signed number. */
  function SignedNumeral(v: Word): string {
    if v < U64 / 2 then Numeral(v, 10) else "-" + Numeral(U64 - v, 10)
  }

  lemma {:induction false} DigitsHaveNoSign(n: nat, base: nat)
    requires Base(base)
    ensures '-' !in Digits(n, base)
  {
    if n > 0 {
      LastDigit(n, base);
      DigitsStep(n, base);
      DigitsHaveNoSign(n / base, base);
    }
  }

  lemma SignedDiffers(v: Word)
    ensures Numeral(v, 10) == SignedNumeral(v) <==> v < U64 / 2
  {
    if v >= U64 / 2 {
      DigitsHaveNoSign(v, 10);
      assert SignedNumeral(v)[0] == '-';
    }
  }

  /** A digit of a base, as it is printed. */
  predicate DigitChar(c: char, base: nat) {
    '0' <= c <= '9' || (base == 16 && 'A' <= c <= 'F')
  }

  /** `s` is a numeral for `n`: digits only, at least one, no leading zero, and it reads as `n`. */
  predicate Denotes(s: string, n: nat, base: nat) {
    && s != "" && (forall i :: 0 <= i < |s| ==> DigitChar(s[i], base))
    && (s[0] == '0' ==> s == "0")
    && Parse(s, base) == n
  }

  lemma DigitCharValue(c: char, base: nat)
    requires Base(base) && DigitChar(c, base)
    ensures Value(c) < base && Glyph(Value(c)) == c
  {
  }

  lemma GlyphIsDigit(d: nat, base: nat)
    requires Base(base) && d < base
    ensures DigitChar(Glyph(d), base)
  {
  }

  lemma {:induction false} DigitsAreDigits(n: nat, base: nat)
    requires Base(base)
    ensures forall i :: 0 <= i < |Digits(n, base)| ==> DigitChar(Digits(n, base)[i], base)
  {
    hide DigitChar, Glyph, Base;
    if n > 0 {
      LastDigit(n, base);
      Remainder(n, base);
      GlyphIsDigit(n % base, base);
      DigitsAreDigits(n / base, base);
    }
  }

  lemma Remainder(n: nat, base: nat)
    requires Base(base)
    ensures n % base < base
  {
  }

  /** Without a leading zero there is only one way to write a number. */
  lemma {:induction false} DigitsUnique(s: string, base: nat)
    requires Base(base) && forall i :: 0 <= i < |s| ==> DigitChar(s[i], base)
    requires s != "" ==> s[0] != '0'
    ensures s == Digits(Parse(s, base), base) && (s != "" ==> Parse(s, base) > 0)
    decreases |s|
  {
    hide DigitChar, Value, Glyph, Digits, Parse, Base;
    if s == "" {
      ParseEmpty(base);
      NoDigits(0, base);
    } else {
      var front, c := s[..|s| - 1], s[|s| - 1];
      assert front != "" ==> front[0] == s[0];
      DigitsUnique(front, base);
      assert s == front + [c];
      LongerNumeral(front, c, base);
    }
  }

  /** Appending a digit to a numeral. */
  lemma LongerNumeral(front: string, c: char, base: nat)
    requires Base(base) && DigitChar(c, base) && front == Digits(Parse(front, base), base)
    requires Parse(front, base) > 0 || c != '0'
    ensures front + [c] == Digits(Parse(front + [c], base), base) && Parse(front + [c], base) > 0
  {
    hide DigitChar, Value, Glyph, Digits, Parse, Base;
    var n := Parse(front + [c], base);
    DigitCharValue(c, base);
    ParseLast(front, c, base);
    NonZeroDigit(c, base);
    Recompose(Parse(front, base), Value(c), base);
    DigitsStep(n, base);
  }

  lemma ParseEmpty(base: nat)
    ensures Parse("", base) == 0
  {
  }

  lemma NonZeroDigit(c: char, base: nat)
    requires Base(base) && DigitChar(c, base)
    ensures c != '0' ==> Value(c) > 0
  {
  }

  lemma Recompose(q: nat, d: nat, base: nat)
    requires Base(base) && d < base
    ensures (q * base + d) / base == q && (q * base + d) % base == d
    ensures q > 0 || d > 0 ==> q * base + d > 0
  {
  }

  /** What the printers write is the numeral of the number: it is one, and there is no other. */
  lemma NumeralIff(s: string, n: nat, base: nat)
    requires Base(base)
    ensures Denotes(s, n, base) <==> s == Numeral(n, base)
  {
    hide DigitChar, Digits, Parse, Base;
    NumeralRoundTrip(n, base);
    DigitsAreDigits(n, base);
    ParseDigits(n, base);
    ZeroText(base);
    if Denotes(s, n, base) && s[0] != '0' {
      DigitsUnique(s, base);
    }
  }

  lemma ZeroText(base: nat)
    ensures Parse("0", base) == 0 && DigitChar('0', base)
  {
    assert "0"[..0] == "";
  }

  function Power(base: nat, k: nat): (p: nat)
    ensures base > 0 ==> p > 0
  {
    if k == 0 then 1 else base * Power(base, k - 1)
  }

  lemma {:induction false} DigitCount(n: nat, base: nat, k: nat)
    requires Base(base) && n < Power(base, k)
    ensures |Digits(n, base)| <= k
  {
    if n > 0 {
      DivideBelow(n, base, k, n / base, n % base);
      DigitCount(n / base, base, k - 1);
    }
  }

  lemma DivideBelow(n: nat, base: nat, k: nat, q: nat, d: nat)
    requires Base(base) && 0 < n < Power(base, k) && Splits(n, base, q, d)
    ensures k > 0 && q < Power(base, k - 1)
  {
  }

  /** 64-bit numbers have at most 20 decimal and 16 hexadecimal digits. */
  lemma WordDigits(n: Word)
    ensures n < Power(10, 20) && n < Power(16, 16)
    ensures |Digits(n, 10)| <= 20 && |Digits(n, 16)| <= 16
  {
    assert Power(10, 10) == 10000000000;
    assert Power(10, 20) == 100000000000000000000;
    assert Power(16, 8) == U32;
    assert Power(16, 16) == U64;
    DigitCount(n, 10, 20);
    DigitCount(n, 16, 16);
  }

  // ------------------------------------------------------------------
  // Formats
  // ------------------------------------------------------------------

  /** Arguments, by the type `va_arg` reads them as. Integers are 64-bit two's complement. */
  datatype Arg = Str(text: string) | Num(value: Word) | Chr(code: int)

  datatype Option<T> = None | Some(value: T)

  /** The text written, and the arguments left over. */
  datatype Output = Output(text: string, rest: seq<Arg>)

  predicate TakesArgument(c: char) { c in "kdiscx" }

  /** The character written for an `int`: its low byte. */
  function Narrow(code: int): char { (code % 0x100) as char }

  /** What one character inside braces writes; None when its argument is missing or of another type. */
  function Specifier(c: char, args: seq<Arg>): (r: Option<Output>)
    ensures r.Some? && TakesArgument(c) ==> args != []
    ensures r.Some? ==> r.value.rest == if TakesArgument(c) then args[1..] else args
  {
    if c == 'n' then Some(Output("\n", args))
    else if !TakesArgument(c) then Some(Output("", args))
    else if args == [] then None
    else match args[0]
      case Str(t) => if c == 'k' || c == 's' then Some(Output(t, args[1..])) else None
      case Num(v) =>
        if c == 'd' || c == 'i' then Some(Output(Numeral(v, 10), args[1..]))
        else if c == 'x' then Some(Output(Numeral(v, 16), args[1..]))
        else None
      case Chr(code) => if c == 'c' then Some(Output([Narrow(code)], args[1..])) else None
  }

  function Prefixed(text: string, r: Option<Output>): Option<Output> {
    if r.None? then None else Some(Output(text + r.value.text, r.value.rest))
  }

  /** The two-state machine on a format: `inside` is its state between braces. */
  function Interpret(format: string, inside: bool, args: seq<Arg>): Option<Output>
    decreases |format|
  {
    if format == "" then Some(Output("", args))
    else
      var c, rest := format[0], format[1..];
      if !inside then
        if c == '{' then Interpret(rest, true, args) else Prefixed([c], Interpret(rest, false, args))
      else if c == '}' then Interpret(rest, false, args)
      else
        var r := Specifier(c, args);
        if r.None? then None else Prefixed(r.value.text, Interpret(rest, true, r.value.rest))
  }

  /** A format as its author thinks of it. */
  datatype Segment = Literal(text: string) | Group(specifiers: string) {
    predicate Valid() {
      if Literal? then '{' !in text else '}' !in specifiers
    }
  }

  predicate AllValid(segments: seq<Segment>) {
    forall i :: 0 <= i < |segments| ==> segments[i].Valid()
  }

  function Encode(segments: seq<Segment>): string {
    if segments == [] then ""
    else (if segments[0].Literal? then segments[0].text else "{" + segments[0].specifiers + "}")
         + Encode(segments[1..])
  }

  /** A group writes what its specifiers write, one after the other. */
  function GroupMeaning(specifiers: string, args: seq<Arg>): Option<Output>
    decreases |specifiers|
  {
    if specifiers == "" then Some(Output("", args))
    else
      var r := Specifier(specifiers[0], args);
      if r.None? then None else Prefixed(r.value.text, GroupMeaning(specifiers[1..], r.value.rest))
  }

  /** Characters in braces that are no specifier change nothing, wherever they stand. In particular
      the `l` of `{ld}` does nothing and the group means what `{d}` means. */
  lemma {:induction false} NoSpecifier(before: string, c: char, after: string, args: seq<Arg>)
    requires c !in "nkdiscx"
    ensures GroupMeaning(before + [c] + after, args) == GroupMeaning(before + after, args)
    decreases |before|
  {
    var long, short := before + [c] + after, before + after;
    if before == "" {
      assert long[0] == c && long[1..] == after && short == after;
      PrefixedNothing(GroupMeaning(after, args));
    } else {
      assert long[0] == short[0] == before[0];
      assert long[1..] == before[1..] + [c] + after && short[1..] == before[1..] + after;
      var r := Specifier(before[0], args);
      if r.Some? {
        NoSpecifier(before[1..], c, after, r.value.rest);
      }
    }
  }

  lemma LongIsPlain(args: seq<Arg>)
    ensures GroupMeaning("ld", args) == GroupMeaning("d", args)
  {
    NoSpecifier("", 'l', "d", args);
    assert "" + ['l'] + "d" == "ld" && "" + "d" == "d";
  }

  /** A format that is one group. */
  lemma OneGroup(specifiers: string, args: seq<Arg>)
    requires '}' !in specifiers
    ensures Interpret("{" + specifiers + "}", false, args) == GroupMeaning(specifiers, args)
  {
    var format := "{" + specifiers + "}";
    assert format[1..] == specifiers + "}" + "";
    InterpretGroup(specifiers, "", args);
    var r := GroupMeaning(specifiers, args);
    if r.Some? {
      assert r.value.text + "" == r.value.text;
    }
  }

  lemma OneSpecifier(c: char, args: seq<Arg>)
    requires c != '}'
    ensures Interpret("{" + [c] + "}", false, args) == Specifier(c, args)
  {
    OneGroup([c], args);
    var r := Specifier(c, args);
    if r.Some? {
      assert r.value.text + "" == r.value.text;
    }
  }

  /** `{d}` and `{i}` write the decimal numeral of the 64-bit pattern. */
  lemma PrintsDecimal(c: char, v: Word, more: seq<Arg>)
    requires c == 'd' || c == 'i'
    ensures var r := Interpret("{" + [c] + "}", false, [Num(v)] + more);
            r.Some? && Denotes(r.value.text, v, 10) && r.value.rest == more
  {
    OneSpecifier(c, [Num(v)] + more);
    NumeralIff(Numeral(v, 10), v, 10);
  }

  /** `{x}` writes the hexadecimal numeral. */
  lemma PrintsHexadecimal(v: Word, more: seq<Arg>)
    ensures var r := Interpret("{x}", false, [Num(v)] + more);
            r.Some? && Denotes(r.value.text, v, 16) && r.value.rest == more
  {
    OneSpecifier('x', [Num(v)] + more);
    assert "{" + ['x'] + "}" == "{x}";
    NumeralIff(Numeral(v, 16), v, 16);
  }

  /** `{s}` and `{k}` write the string itself, `{c}` the character of the argument's low byte, and
      `{n}` ends the line without an argument. */
  lemma PrintsText(c: char, text: string, code: int, more: seq<Arg>)
    ensures c == 's' || c == 'k' ==>
              Interpret("{" + [c] + "}", false, [Str(text)] + more) == Some(Output(text, more))
    ensures Interpret("{c}", false, [Chr(code)] + more) == Some(Output([(code % 0x100) as char], more))
    ensures Interpret("{n}", false, more) == Some(Output("\n", more))
  {
    if c == 's' || c == 'k' {
      OneSpecifier(c, [Str(text)] + more);
    }
    OneSpecifier('c', [Chr(code)] + more);
    OneSpecifier('n', more);
    assert "{" + ['c'] + "}" == "{c}" && "{" + ['n'] + "}" == "{n}";
  }

  /** The integer specifiers are documented as integers, but what they print is the signed number
      exactly when it is not negative. */
  lemma PrintsSignedIff(c: char, v: Word, more: seq<Arg>)
    requires c == 'd' || c == 'i'
    ensures var r := Interpret("{" + [c] + "}", false, [Num(v)] + more);
            r.Some? && (r.value.text == SignedNumeral(v) <==> v < 0x8000_0000_0000_0000)
  {
    OneSpecifier(c, [Num(v)] + more);
    SignedDiffers(v);
  }

  /** A format writes what its segments write, in order. */
  function Meaning(segments: seq<Segment>, args: seq<Arg>): Option<Output>
    decreases |segments|
  {
    if segments == [] then Some(Output("", args))
    else match segments[0]
      case Literal(text) => Prefixed(text, Meaning(segments[1..], args))
      case Group(specifiers) =>
        var r := GroupMeaning(specifiers, args);
        if r.None? then None else Prefixed(r.value.text, Meaning(segments[1..], r.value.rest))
  }

  lemma PrefixedTwice(a: string, b: string, r: Option<Output>)
    ensures Prefixed(a, Prefixed(b, r)) == Prefixed(a + b, r)
  {
    if r.Some? {
      assert a + (b + r.value.text) == a + b + r.value.text;
    }
  }

  lemma {:induction false} InterpretLiteral(text: string, rest: string, args: seq<Arg>)
    requires '{' !in text
    ensures Interpret(text + rest, false, args) == Prefixed(text, Interpret(rest, false, args))
    decreases |text|
  {
    if text == "" {
      assert text + rest == rest;
      PrefixedNothing(Interpret(rest, false, args));
    } else {
      assert (text + rest)[1..] == text[1..] + rest;
      InterpretLiteral(text[1..], rest, args);
      PrefixedTwice([text[0]], text[1..], Interpret(rest, false, args));
      assert [text[0]] + text[1..] == text;
    }
  }

  lemma PrefixedNothing(r: Option<Output>)
    ensures Prefixed("", r) == r
  {
    if r.Some? {
      assert "" + r.value.text == r.value.text;
    }
  }

  lemma {:induction false} InterpretGroup(specifiers: string, rest: string, args: seq<Arg>)
    requires '}' !in specifiers
    ensures Interpret(specifiers + "}" + rest, true, args)
            == var r := GroupMeaning(specifiers, args);
               if r.None? then None else Prefixed(r.value.text, Interpret(rest, false, r.value.rest))
    decreases |specifiers|
  {
    var format := specifiers + "}" + rest;
    if specifiers == "" {
      assert format[0] == '}' && format[1..] == rest;
      PrefixedNothing(Interpret(rest, false, args));
    } else {
      assert format[0] == specifiers[0] && format[1..] == specifiers[1..] + "}" + rest;
      var r := Specifier(specifiers[0], args);
      if r.Some? {
        InterpretGroup(specifiers[1..], rest, r.value.rest);
        var g := GroupMeaning(specifiers[1..], r.value.rest);
        if g.Some? {
          PrefixedTwice(r.value.text, g.value.text, Interpret(rest, false, g.value.rest));
        }
      }
    }
  }

  /** Text that follows, with the arguments left over. */
  function Followed(r: Option<Output>, rest: string, inside: bool): Option<Output> {
    if r.None? then None else Prefixed(r.value.text, Interpret(rest, inside, r.value.rest))
  }

  lemma {:induction false} InterpretSegments(segments: seq<Segment>, rest: string, args: seq<Arg>)
    requires AllValid(segments)
    ensures Interpret(Encode(segments) + rest, false, args) == Followed(Meaning(segments, args), rest, false)
    decreases |segments|
  {
    if segments == [] {
      assert Encode(segments) + rest == rest;
      PrefixedNothing(Interpret(rest, false, args));
    } else {
      var more := Encode(segments[1..]) + rest;
      match segments[0]
      case Literal(text) =>
        assert Encode(segments) + rest == text + more;
        InterpretLiteral(text, more, args);
        InterpretSegments(segments[1..], rest, args);
        FollowedLater(text, Meaning(segments[1..], args), rest);
      case Group(specifiers) =>
        assert Encode(segments) + rest == "{" + (specifiers + "}" + more);
        assert (Encode(segments) + rest)[1..] == specifiers + "}" + more;
        InterpretGroup(specifiers, more, args);
        var r := GroupMeaning(specifiers, args);
        if r.Some? {
          InterpretSegments(segments[1..], rest, r.value.rest);
          FollowedLater(r.value.text, Meaning(segments[1..], r.value.rest), rest);
        }
    }
  }

  lemma FollowedLater(text: string, r: Option<Output>, rest: string)
    ensures Prefixed(text, Followed(r, rest, false)) == Followed(Prefixed(text, r), rest, false)
  {
    if r.Some? {
      PrefixedTwice(text, r.value.text, Interpret(rest, false, r.value.rest));
    }
  }

  /** The interpreter gives every list of segments its meaning: literal text as it stands, groups of
      any number of specifiers in order, arguments from left to right. */
  lemma InterpretEncoded(segments: seq<Segment>, args: seq<Arg>)
    requires AllValid(segments)
    ensures Interpret(Encode(segments), false, args) == Meaning(segments, args)
  {
    InterpretSegments(segments, "", args);
    assert Encode(segments) + "" == Encode(segments);
    var r := Meaning(segments, args);
    if r.Some? {
      assert r.value.text + "" == r.value.text;
    }
  }

  /** Every format is a list of segments, possibly followed by a group that is never closed. */
  lemma {:induction false} Segmented(format: string) returns (segments: seq<Segment>, open: Option<string>)
    ensures AllValid(segments) && (open.Some? ==> '}' !in open.value)
    ensures format == Encode(segments) + if open.Some? then "{" + open.value else ""
    decreases |format|
  {
    hide Encode;
    EncodeNone();
    if format == "" {
      segments, open := [], None;
    } else if format[0] != '{' {
      var rest;
      rest, open := Segmented(format[1..]);
      segments := [Literal([format[0]])] + rest;
      EncodeFirst(Literal([format[0]]), rest);
      assert format == [format[0]] + format[1..];
    } else {
      var n := GroupEnd(format, 1);
      if n == |format| {
        segments, open := [], Some(format[1..]);
        assert format == "{" + format[1..];
      } else {
        var group := Group(format[1..n]);
        var rest;
        rest, open := Segmented(format[n + 1..]);
        segments := [group] + rest;
        EncodeFirst(group, rest);
        assert format == "{" + format[1..n] + "}" + format[n + 1..];
      }
    }
  }

  lemma EncodeNone()
    ensures Encode([]) == ""
  {
  }

  lemma EncodeFirst(first: Segment, rest: seq<Segment>)
    ensures Encode([first] + rest)
            == (if first.Literal? then first.text else "{" + first.specifiers + "}") + Encode(rest)
  {
    assert ([first] + rest)[1..] == rest;
  }

  /** The next closing brace, or the end. */
  function GroupEnd(format: string, from: nat): (n: nat)
    requires from <= |format|
    ensures from <= n <= |format| && '}' !in format[from..n]
    ensures n < |format| ==> format[n] == '}'
    decreases |format| - from
  {
    if from == |format| || format[from] == '}' then from
    else
      var n := GroupEnd(format, from + 1);
      assert format[from..n] == [format[from]] + format[from + 1..n];
      n
  }

  lemma {:induction false} InterpretOpen(specifiers: string, args: seq<Arg>)
    requires '}' !in specifiers
    ensures Interpret(specifiers, true, args) == GroupMeaning(specifiers, args)
    decreases |specifiers|
  {
    if specifiers != "" {
      var r := Specifier(specifiers[0], args);
      if r.Some? {
        InterpretOpen(specifiers[1..], r.value.rest);
      }
    }
  }

  /** So every format whatever, well formed or not, means what its segments mean. */
  lemma FormatMeaning(format: string, args: seq<Arg>) returns (segments: seq<Segment>, open: Option<string>)
    ensures AllValid(segments) && (open.Some? ==> '}' !in open.value)
    ensures format == Encode(segments) + if open.Some? then "{" + open.value else ""
    ensures Interpret(format, false, args)
            == var r := Meaning(segments, args);
               if r.None? || open.None? then r
               else var g := GroupMeaning(open.value, r.value.rest);
                    if g.None? then None else Prefixed(r.value.text, g)
  {
    segments, open := Segmented(format);
    if open.None? {
      assert format == Encode(segments);
      InterpretEncoded(segments, args);
    } else {
      InterpretSegments(segments, "{" + open.value, args);
      var r := Meaning(segments, args);
      if r.Some? {
        assert ("{" + open.value)[1..] == open.value;
        InterpretOpen(open.value, r.value.rest);
      }
    }
  }

  /** How many arguments a format takes. */
  function Arity(format: string, inside: bool): nat
    decreases |format|
  {
    if format == "" then 0
    else if !inside then Arity(format[1..], format[0] == '{')
    else (if format[0] in "kdiscx" then 1 else 0) + Arity(format[1..], format[0] != '}')
  }

  /** Exactly one argument is used per k, d, i, s, c or x inside braces, and none otherwise. */
  lemma {:induction false} ArgumentsUsed(format: string, inside: bool, args: seq<Arg>)
    requires Interpret(format, inside, args).Some?
    ensures Arity(format, inside) <= |args|
    ensures Interpret(format, inside, args).value.rest == args[Arity(format, inside)..]
    decreases |format|
  {
    if format != "" {
      var c, rest := format[0], format[1..];
      if inside && c != '}' {
        var r := Specifier(c, args).value;
        ArgumentsUsed(rest, true, r.rest);
        if TakesArgument(c) {
          assert args[1..][Arity(rest, true)..] == args[1 + Arity(rest, true)..];
        }
      } else {
        ArgumentsUsed(rest, if inside then false else c == '{', args);
      }
    }
  }

  // ------------------------------------------------------------------
  // The code
  // ------------------------------------------------------------------

  class Terminal {
    var text: string

    constructor ()
      ensures text == ""
    {
      text := "";
    }

    method PrintChar(c: char)
      modifies this
      ensures text == old(text) + [c]
    {
      text := text + [c];
    }

    method PrintStr(s: string)
      modifies this
      ensures text == old(text) + s
    {
      text := text + s;
    }

    /** The digit loop of `print_int` and `print_hex`, with their base and early-return limit. The
        limit is never reached. */
    method FillDigits(num: Word, base: nat, limit: nat, arr: array<nat>) returns (digitscount: nat)
      requires arr.Length == 128 && ((base == 10 && limit == 128) || (base == 16 && limit == 64))
      modifies arr
      ensures digitscount <= 20 && forall k :: 0 <= k < digitscount ==> arr[k] < base
      ensures Digits(num, base) == Reversed(arr[..digitscount]) && (digitscount == 0 <==> num == 0)
    {
      hide Power, Digits, Reversed, Glyph, Splits;
      var n: nat := num;
      var j := 0;
      digitscount := 0;
      WordDigits(num);
      NoDigits(num, base);
      ghost var width := if base == 10 then 20 else 16;
      while n != 0
        invariant j == digitscount <= width && n < Power(base, width - j)
        invariant forall k :: 0 <= k < j ==> arr[k] < base
        invariant Digits(num, base) == Digits(n, base) + Reversed(arr[..j])
        invariant if num == 0 then n == 0 && j == 0 else n + j > 0
        decreases n
      {
        var mod, rest := SplitDigit(n, base);
        ghost var before := arr[..j];
        DivideBelow(n, base, width - j, rest, mod);
        DigitMoved(num, n, base, before, rest, mod);
        arr[j] := mod;
        n := rest;
        j := j + 1;
        if j == limit {
          assert false;
        }
        digitscount := j;
        if n == 0 {
          arr[j] := mod;
        }
        assert arr[..j] == before + [mod];
      }
    }

    method PrintNumber(num: Word, base: nat, limit: nat)
      requires (base == 10 && limit == 128) || (base == 16 && limit == 64)
      modifies this
      ensures text == old(text) + Numeral(num, base)
    {
      hide Digits, Reversed;
      var arr := new nat[128];
      var digitscount := FillDigits(num, base, limit, arr);
      PrintReversed(arr, digitscount);
      if digitscount == 0 {
        NoDigits(num, base);
        assert arr[..digitscount] == [] && text == old(text);
        PrintChar('0');
      }
    }

    /** Prints digits from the last one stored down to the first. */
    method PrintReversed(arr: array<nat>, count: nat)
      requires count <= arr.Length && forall k :: 0 <= k < count ==> arr[k] < 16
      modifies this
      ensures text == old(text) + Reversed(arr[..count])
    {
      hide Reversed, Glyph;
      var i := count - 1;
      while i != -1
        invariant -1 <= i < count
        invariant text + Reversed(arr[..i + 1]) == old(text) + Reversed(arr[..count])
        decreases i + 1
      {
        assert arr[..i + 1] == arr[..i] + [arr[i]];
        ReversedGrows(arr[..i], arr[i]);
        PrintChar(Glyph(arr[i]));
        i := i - 1;
      }
      NoDigits(0, 10);
      assert arr[..0] == [];
    }

    method PrintInt(num: Word)
      modifies this
      ensures text == old(text) + Numeral(num, 10)
    {
      PrintNumber(num, 10, 128);
    }

    method PrintHex(num: Word)
      modifies this
      ensures text == old(text) + Numeral(num, 16)
    {
      PrintNumber(num, 16, 64);
    }

    /** `printf`: the loop over the format with its state and argument cursor. */
    method Printf(format: string, args: seq<Arg>)
      requires Interpret(format, false, args).Some?
      modifies this
      ensures text == old(text) + Interpret(format, false, args).value.text
    {
      hide Specifier, TakesArgument;
      var inside, next := false, 0;
      ghost var written := "";
      ghost var total := Interpret(format, false, args);
      PrefixedNothing(total);
      for i := 0 to |format|
        invariant next <= |args| && text == old(text) + written
        invariant Prefixed(written, Interpret(format[i..], inside, args[next..])) == total
      {
        var c := format[i];
        assert format[i..][0] == c && format[i..][1..] == format[i + 1..];
        ghost var r := Specifier(c, args[next..]);
        ghost var add := if !inside then (if c == '{' then "" else [c]) else if c == '}' then "" else r.value.text;
        if !inside {
          if c == '{' {
            inside := true;
          } else {
            PrintChar(c);
          }
        } else if c == '}' {
          inside := false;
        } else {
          next := Specify(c, args, next);
        }
        PrefixedTwice(written, add, Interpret(format[i + 1..], inside, args[next..]));
        PrefixedNothing(Interpret(format[i + 1..], inside, args[next..]));
        written := written + add;
      }
      assert format[|format|..] == "";
    }

    /** One specifier. */
    method Specify(c: char, args: seq<Arg>, at: nat) returns (next: nat)
      requires at <= |args| && Specifier(c, args[at..]).Some?
      modifies this
      ensures next <= |args| && args[next..] == Specifier(c, args[at..]).value.rest
      ensures text == old(text) + Specifier(c, args[at..]).value.text
    {
      next := at;
      if c == 'n' {
        PrintStr("\n");
      } else if TakesArgument(c) {
        next := at + 1;
        match args[at]
        case Str(t) => PrintStr(t);
        case Num(v) =>
          if c == 'x' {
            PrintHex(v);
          } else {
            PrintInt(v);
          }
        case Chr(code) => PrintChar(Narrow(code));
      }
    }
  }

  /** The glyphs of digits stored least significant first. */
  function Reversed(ds: seq<nat>): string
    requires forall k :: 0 <= k < |ds| ==> ds[k] < 16
  {
    if ds == [] then "" else [Glyph(ds[|ds| - 1])] + Reversed(ds[..|ds| - 1])
  }

  /** One turn of the digit loop, seen on the text still to come. */
  lemma DigitMoved(num: nat, n: nat, base: nat, ds: seq<nat>, q: nat, d: nat)
    requires Base(base) && n > 0 && (forall k :: 0 <= k < |ds| ==> ds[k] < 16)
    requires Splits(n, base, q, d) && d < 16
    requires Digits(num, base) == Digits(n, base) + Reversed(ds)
    ensures Digits(num, base) == Digits(q, base) + Reversed(ds + [d])
  {
    hide Digits, Reversed, Glyph, Base;
    DigitsStep(n, base);
    ReversedGrows(ds, d);
    var front, g := Digits(q, base), [Glyph(d)];
    assert front + g + Reversed(ds) == front + (g + Reversed(ds));
  }

  predicate Splits(n: nat, base: nat, q: nat, d: nat)
    requires base > 0
  {
    q == n / base && d == n % base
  }

  method SplitDigit(n: nat, base: nat) returns (d: nat, q: nat)
    requires Base(base) && n > 0
    ensures Splits(n, base, q, d) && d < base && q < n
  {
    d, q := n % base, n / base;
  }

  lemma DigitsStep(n: nat, base: nat)
    requires Base(base) && n > 0
    ensures Digits(n, base) == Digits(n / base, base) + [Glyph(n % base)]
  {
  }

  lemma NoDigits(num: nat, base: nat)
    requires Base(base)
    ensures Digits(0, base) == "" && Reversed([]) == ""
    ensures Digits(num, base) == Digits(num, base) + Reversed([])
  {
  }

  lemma ReversedGrows(ds: seq<nat>, d: nat)
    requires (forall k :: 0 <= k < |ds| ==> ds[k] < 16) && d < 16
    ensures Reversed(ds + [d]) == [Glyph(d)] + Reversed(ds)
  {
    assert (ds + [d])[..|ds|] == ds && (ds + [d])[|ds|] == d;
  }
}
