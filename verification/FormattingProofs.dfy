/** What the printf dialect promises of every template and every argument list. */
module FormattingProofs {
  import opened Options
  import opened Basics
  import opened Texts
  import opened Formatting
  import Decimal

  // ------------------------------------------------------- nothing is lost, nothing rescanned

  function SourceOf(token: Token): Utf8 {
    match token
    case Literal(c) => [c]
    case Percent => "%%"
    case Placeholder(_, source) => source
  }

  function Sources(tokens: seq<Token>): Utf8 {
    if tokens == [] then "" else SourceOf(tokens[0]) + Sources(tokens[1..])
  }

  lemma TokensAtStray(template: Utf8, at: nat)
    requires at < |template| && template[at] == '%' && SpecAt(template, at).None?
    ensures TokensFrom(template, at) == [Literal('%')] + TokensFrom(template, at + 1)
  {
    hide SpecAt;
  }

  lemma TokensAtSpec(template: Utf8, at: nat)
    requires at < |template| && template[at] == '%' && SpecAt(template, at).Some?
    ensures var spec := SpecAt(template, at).value;
            var token := TokensFrom(template, at)[..1];
            && TokensFrom(template, at) == token + TokensFrom(template, spec.end)
            && |token| == 1 && SourceOf(token[0]) == template[at..spec.end]
  {
    var spec := SpecAt(template, at).value;
    if spec.conversion == '%' {
      PercentIsDoubled(template, at);
      assert template[at..at + 2] == "%%";
    }
    TokensAtSpecSplit(template, at);
  }

  lemma TokensAtSpecSplit(template: Utf8, at: nat)
    requires at < |template| && template[at] == '%' && SpecAt(template, at).Some?
    ensures var spec := SpecAt(template, at).value;
            TokensFrom(template, at)
            == [if spec.conversion == '%' then Percent else Placeholder(spec, template[at..spec.end])]
               + TokensFrom(template, spec.end)
  {
    hide SpecAt;
  }

  lemma PercentIsDoubled(template: Utf8, at: nat)
    requires at < |template| && SpecAt(template, at).Some? && SpecAt(template, at).value.conversion == '%'
    ensures SpecAt(template, at).value.end == at + 2 && template[at + 1] == '%'
  {
    hide SpecAfterIndex;
  }

  lemma SourcesAdd(first: seq<Token>, rest: seq<Token>)
    requires |first| == 1
    ensures Sources(first + rest) == SourceOf(first[0]) + Sources(rest)
  {
    assert (first + rest)[1..] == rest;
  }

  /** Some first token takes up the text up to some `end`. */
  lemma FirstToken(template: Utf8, at: nat) returns (first: seq<Token>, end: nat)
    requires at < |template|
    ensures at < end <= |template| && |first| == 1
    ensures TokensFrom(template, at) == first + TokensFrom(template, end)
    ensures SourceOf(first[0]) == template[at..end]
  {
    hide SpecAt, TokensFrom;
    end, first := at + 1, [Literal(template[at])];
    if template[at] != '%' {
      TokensAtLiteral(template, at);
    } else if SpecAt(template, at).None? {
      TokensAtStray(template, at);
    } else {
      TokensAtSpec(template, at);
      end, first := SpecAt(template, at).value.end, TokensFrom(template, at)[..1];
    }
  }

  lemma NoTokensLeft(template: Utf8)
    ensures Sources(TokensFrom(template, |template|)) == ""
  {
  }

  /** The tokens are the template cut up: their texts joined give it back byte for byte. */
  lemma {:induction false} TokensAreTheTemplate(template: Utf8, at: nat)
    requires at <= |template|
    ensures Sources(TokensFrom(template, at)) == template[at..]
    decreases |template| - at
  {
    hide *;
    if at == |template| {
      NoTokensLeft(template);
    } else {
      var first, end := FirstToken(template, at);
      TokensAreTheTemplate(template, end);
      SourcesAdd(first, TokensFrom(template, end));
      assert template[at..] == template[at..end] + template[end..];
    }
  }

  function FieldsInOrder(tokens: seq<Token>): nat {
    if tokens == [] then 0
    else
      (if tokens[0].Placeholder? && tokens[0].spec.index.None? then 1 else 0) + FieldsInOrder(tokens[1..])
  }

  /** The fields of a template that name no argument; each takes the next one. */
  lemma FieldsTakeTurns(before: seq<Token>, field: Spec, source: Utf8, rest: seq<Token>, args: seq<FormatArg>,
                        floats: FloatFormat)
    requires field.index.None?
    ensures var turn := FieldsInOrder(before);
            Printed(before + [Placeholder(field, source)] + rest, args, 0, floats)
            == Printed(before, args, 0, floats)
               + (if turn < |args| then Pad(RenderArg(args[turn], field, floats), field) else source)
               + Printed(rest, args, turn + 1, floats)
  {
    var token := Placeholder(field, source);
    assert before + [token] + rest == before + ([token] + rest);
    PrintedInParts(before, [token] + rest, args, 0, floats);
    PrintedOfCons(token, rest, args, FieldsInOrder(before), floats);
    Regroup(Printed(before, args, 0, floats), PrintedToken(token, args, FieldsInOrder(before), floats),
            Printed(rest, args, FieldsInOrder(before) + 1, floats));
  }

  /** A part of a template prints the same whatever surrounds it, apart from how many arguments
      were taken in order before it: inserted text is never read again. */
  lemma {:induction false} PrintedInParts(first: seq<Token>, second: seq<Token>, args: seq<FormatArg>, next: nat,
                                         floats: FloatFormat)
    ensures Printed(first + second, args, next, floats)
            == Printed(first, args, next, floats) + Printed(second, args, next + FieldsInOrder(first), floats)
  {
    if first == [] {
      assert first + second == second;
    } else {
      var rest := if TakesNext(first[0]) then next + 1 else next;
      assert first + second == [first[0]] + (first[1..] + second);
      PrintedOfCons(first[0], first[1..] + second, args, next, floats);
      PrintedInParts(first[1..], second, args, rest, floats);
      assert first == [first[0]] + first[1..];
      Regroup(PrintedToken(first[0], args, next, floats), Printed(first[1..], args, rest, floats),
              Printed(second, args, next + FieldsInOrder(first), floats));
    }
  }

  /** With no arguments only doubled percent signs change; every specifier stays as written. */
  function Collapsed(tokens: seq<Token>): Utf8 {
    if tokens == [] then ""
    else (if tokens[0].Percent? then "%" else SourceOf(tokens[0])) + Collapsed(tokens[1..])
  }

  lemma {:induction false} NoArgumentsCollapse(tokens: seq<Token>, next: nat, floats: FloatFormat)
    ensures Printed(tokens, [], next, floats) == Collapsed(tokens)
  {
    if tokens != [] {
      NoArgumentsCollapse(tokens[1..], if TakesNext(tokens[0]) then next + 1 else next, floats);
    }
  }

  // ------------------------------------------------------- escaping

  function Doubled(text: Utf8): Utf8 {
    if text == "" then "" else (if text[0] == '%' then "%%" else [text[0]]) + Doubled(text[1..])
  }

  lemma {:induction false} DoubledFromPrints(template: Utf8, at: nat, text: Utf8, args: seq<FormatArg>, next: nat,
                                            floats: FloatFormat)
    requires at <= |template| && template[at..] == Doubled(text)
    ensures Printed(TokensFrom(template, at), args, next, floats) == text
    decreases |text|
  {
    if text == "" {
      assert at == |template|;
    } else if text[0] == '%' {
      assert template[at] == template[at..][0] == '%';
      assert template[at + 1] == template[at..][1] == '%';
      assert template[at + 2..] == template[at..][2..] == Doubled(text[1..]);
      DoubledFromPrints(template, at + 2, text[1..], args, next, floats);
      assert TokensFrom(template, at) == [Percent] + TokensFrom(template, at + 2);
      PrintedOfCons(Percent, TokensFrom(template, at + 2), args, next, floats);
    } else {
      assert template[at] == template[at..][0] == text[0];
      assert template[at + 1..] == template[at..][1..] == Doubled(text[1..]);
      DoubledFromPrints(template, at + 1, text[1..], args, next, floats);
      PrintedAtLiteral(template, at, args, next, floats);
    }
  }

  /** Doubling the percent signs of any text makes it print itself, whatever the arguments. */
  lemma DoubledPrintsItself(text: Utf8, args: seq<FormatArg>, floats: FloatFormat)
    ensures Printed(Tokens(Doubled(text)), args, 0, floats) == text
  {
    assert Doubled(text)[0..] == Doubled(text);
    DoubledFromPrints(Doubled(text), 0, text, args, 0, floats);
  }

  // ------------------------------------------------------- widths

  lemma {:induction false} FirstCharacterOfLonger(a: Utf8, b: Utf8)
    requires a != "" && (b != "" ==> !IsContinuation(b[0]))
    ensures FirstCharacter(a + b) == FirstCharacter(a)
  {
    if |a| > 1 && IsContinuation(a[1]) {
      assert (a + b)[1..] == a[1..] + b;
      FirstCharacterOfLonger(a[1..], b);
    }
  }

  lemma {:induction false} CharCountAdds(a: Utf8, b: Utf8)
    requires b != "" ==> !IsContinuation(b[0])
    ensures CharCount(a + b) == CharCount(a) + CharCount(b)
    decreases |a|
  {
    if a == "" {
      assert a + b == b;
    } else {
      var n := FirstCharacter(a);
      FirstCharacterOfLonger(a, b);
      assert (a + b)[n..] == a[n..] + b;
      CharCountAdds(a[n..], b);
    }
  }

  lemma {:induction false} CharCountOfRepeated(c: char, n: nat)
    requires IsAscii(c)
    ensures CharCount(Repeated(c, n)) == n
  {
    if n > 0 {
      assert Repeated(c, n)[1..] == Repeated(c, n - 1);
      CharCountOfRepeated(c, n - 1);
    }
  }

  /** A padded field is exactly as many characters wide as asked, or as its text if that is
      wider, and the text is at the end that the flags say. */
  lemma PaddedWidth(body: Utf8, spec: Spec)
    requires WellFormed(body)
    ensures CharCount(Pad(body, spec))
            == if spec.width.Some? && spec.width.value > CharCount(body) then spec.width.value else CharCount(body)
    ensures if spec.leftJustify then body <= Pad(body, spec)
            else Pad(body, spec)[|Pad(body, spec)| - |body|..] == body
    ensures forall i :: |body| <= i < |Pad(body, spec)| && spec.leftJustify ==> Pad(body, spec)[i] == ' '
    ensures forall i :: 0 <= i < |Pad(body, spec)| - |body| && !spec.leftJustify ==>
              Pad(body, spec)[i] == if spec.zeroPad then '0' else ' '
  {
    hide CharCount;
    assert body != "" ==> !IsContinuation(body[0]);
    hide WellFormed;
    if spec.width.Some? && spec.width.value > CharCount(body) {
      var fill := spec.width.value - CharCount(body);
      var filler := if spec.zeroPad && !spec.leftJustify then '0' else ' ';
      CharCountOfRepeated(filler, fill);
      CharCountAdds(Repeated(filler, fill), body);
      CharCountAdds(body, Repeated(filler, fill));
    }
  }

  lemma {:induction false} FirstCharacterEnds(s: Utf8)
    requires s != "" && FirstCharacter(s) < |s|
    ensures !IsContinuation(s[FirstCharacter(s)])
  {
    if |s| > 1 && IsContinuation(s[1]) {
      FirstCharacterEnds(s[1..]);
    }
  }

  lemma NothingTaken(s: Utf8, limit: nat)
    requires s == "" || limit == 0
    ensures TakeChars(s, limit) == "" && IsBoundary(s, 0) && CharCount("") == 0
  {
  }

  lemma {:induction false} TakenIsPrefix(s: Utf8, limit: nat)
    ensures TakeChars(s, limit) <= s && IsBoundary(s, |TakeChars(s, limit)|)
    decreases |s|
  {
    hide *;
    if s == "" || limit == 0 {
      NothingTaken(s, limit);
    } else {
      FirstIsTaken(s, limit);
      var tail := s[FirstCharacter(s)..];
      TakenIsPrefix(tail, limit - 1);
      CutAfterFirst(s, TakeChars(tail, limit - 1));
    }
  }

  lemma {:induction false} TakenCount(s: Utf8, limit: nat)
    ensures CharCount(TakeChars(s, limit)) == if limit < CharCount(s) then limit else CharCount(s)
    decreases |s|
  {
    hide *;
    if s == "" || limit == 0 {
      NothingTaken(s, limit);
    } else {
      FirstIsTaken(s, limit);
      var tail := s[FirstCharacter(s)..];
      TakenCount(tail, limit - 1);
      TakenIsPrefix(tail, limit - 1);
      FirstAndRest(s, TakeChars(tail, limit - 1));
    }
  }

  /** A precision keeps the first so many characters, whole. */
  lemma TakenCharacters(s: Utf8, limit: nat)
    ensures TakeChars(s, limit) <= s && IsBoundary(s, |TakeChars(s, limit)|)
    ensures CharCount(TakeChars(s, limit)) == if limit < CharCount(s) then limit else CharCount(s)
  {
    TakenIsPrefix(s, limit);
    TakenCount(s, limit);
  }

  lemma FirstIsTaken(s: Utf8, limit: nat)
    requires s != "" && limit > 0
    ensures var n := FirstCharacter(s);
            && TakeChars(s, limit) == s[..n] + TakeChars(s[n..], limit - 1)
            && CharCount(s) == 1 + CharCount(s[n..])
  {
  }

  lemma CutAfterFirst(s: Utf8, rest: Utf8)
    requires s != "" && rest <= s[FirstCharacter(s)..] && IsBoundary(s[FirstCharacter(s)..], |rest|)
    ensures s[..FirstCharacter(s)] + rest <= s && IsBoundary(s, FirstCharacter(s) + |rest|)
  {
    var n := FirstCharacter(s);
    assert s == s[..n] + s[n..];
    if n < |s| {
      FirstCharacterEnds(s);
      assert |rest| < |s[n..]| ==> s[n + |rest|] == s[n..][|rest|];
    }
  }

  lemma FirstAndRest(s: Utf8, rest: Utf8)
    requires s != "" && rest <= s[FirstCharacter(s)..]
    ensures CharCount(s[..FirstCharacter(s)] + rest) == 1 + CharCount(rest)
  {
    var n := FirstCharacter(s);
    if n < |s| {
      FirstCharacterEnds(s);
    }
    assert rest != "" ==> rest[0] == s[n..][0];
    OneCharacter(s);
    CharCountAdds(s[..n], rest);
  }

  lemma OneCharacter(s: Utf8)
    requires s != ""
    ensures CharCount(s[..FirstCharacter(s)]) == 1
  {
    var n := FirstCharacter(s);
    var rest := s[n..];
    assert s == s[..n] + rest;
    if n < |s| {
      FirstCharacterEnds(s);
    }
    FirstCharacterOfLonger(s[..n], rest);
  }

  // ------------------------------------------------------- arguments

  /** A text is printed whole, unless it is a text's conversion with a precision: then its first so
      many characters are. */
  lemma RenderedText(text: Utf8, spec: Spec, floats: FloatFormat)
    ensures var printed := RenderArg(Text(text), spec, floats);
            if spec.precision.None? || spec.conversion !in {'@', 's', 'S'} then printed == text
            else
              && printed <= text && IsBoundary(text, |printed|)
              && CharCount(printed) == Min(spec.precision.value, CharCount(text))
  {
    if spec.precision.Some? {
      TakenCharacters(text, spec.precision.value);
    }
  }

  /** An integer is printed as itself, and a float for an integer's conversion cut toward zero and
      to 64 bits; a float's conversion has as many decimals as its precision says, or six. */
  lemma RenderedNumber(value: int, number: real, spec: Spec, floats: FloatFormat)
    ensures spec.conversion !in {'f', 'F'} ==> ParseInt(RenderArg(Int(value), spec, floats)) == Some(value)
    ensures spec.conversion in {'d', 'i', 'u'} ==>
              ParseInt(RenderArg(Float(number), spec, floats)) == Some(TruncatedToInt(number))
    ensures spec.conversion in {'f', 'F'} ==>
              && RenderArg(Float(number), spec, floats)
                 == floats.fixed(number, if spec.precision.None? then 6 else spec.precision.value)
              && RenderArg(Int(value), spec, floats) == RenderArg(Float(value as real), spec, floats)
  {
    hide ParseInt, IntText, TruncatedToInt;
    IntTextReadsBack(value);
    IntTextReadsBack(TruncatedToInt(number));
  }

  lemma TruncatedTowardZero(x: real)
    ensures var n := TruncatedToInt(x);
            && -0x8000_0000_0000_0000 <= n <= 0x7FFF_FFFF_FFFF_FFFF
            && (-0x8000_0000_0000_0001 as real < x < 0x8000_0000_0000_0000 as real ==>
                  if x >= 0.0 then n as real <= x < n as real + 1.0 else n as real - 1.0 < x <= n as real)
            && (x >= 0x8000_0000_0000_0000 as real ==> n == 0x7FFF_FFFF_FFFF_FFFF)
            && (x <= -0x8000_0000_0000_0001 as real ==> n == -0x8000_0000_0000_0000)
  {
  }

  // ------------------------------------------------------- zero padding and signs

  lemma {:induction false} NumberWithZeros(n: nat, digits: Utf8)
    requires AllDigits(digits)
    ensures NumberOf(Repeated('0', n) + digits) == NumberOf(digits)
    decreases n + |digits|
  {
    var s := Repeated('0', n) + digits;
    if digits != "" {
      assert s[..|s| - 1] == Repeated('0', n) + digits[..|digits| - 1];
      NumberWithZeros(n, digits[..|digits| - 1]);
    } else if n > 0 {
      assert s[..|s| - 1] == Repeated('0', n - 1) + "";
      NumberWithZeros(n - 1, "");
    }
  }

  lemma IntTextReadsBack(value: int)
    ensures ParseInt(IntText(value)) == Some(value)
  {
    hide Decimal.Digits, NumberOf;
    var magnitude: nat := if value < 0 then -value else value;
    var digits := Decimal.Digits(magnitude);
    Decimal.DigitsHaveTheirValue(magnitude);
    assert IsDigit(digits[0]);
    assert value < 0 ==> IntText(value)[1..] == digits;
  }

  lemma ZerosBeforeDigits(fill: nat, magnitude: nat)
    ensures ParseInt(Repeated('0', fill) + Decimal.Digits(magnitude)) == Some(magnitude)
  {
    hide NumberOf, Decimal.Digits;
    var padded := Repeated('0', fill) + Decimal.Digits(magnitude);
    NumberWithZeros(fill, Decimal.Digits(magnitude));
    Decimal.DigitsHaveTheirValue(magnitude);
    assert AllDigits(padded);
  }

  lemma ZerosBeforeSign(fill: nat, digits: Utf8)
    requires fill > 0
    ensures ParseInt(Repeated('0', fill) + ("-" + digits)) == None
  {
    var padded := Repeated('0', fill) + ("-" + digits);
    assert padded[0] == '0' && !IsDigit(padded[fill]);
    assert !AllDigits(padded);
  }

  /** A zero-padded integer still reads as that integer, except a negative one that needed
      padding: the zeros go before its sign. */
  lemma ZeroPaddedReadsBackIff(value: int, spec: Spec, floats: FloatFormat)
    requires spec.conversion in {'d', 'i', 'u'} && spec.zeroPad && !spec.leftJustify && spec.width.Some?
    ensures ParseInt(Pad(RenderArg(Int(value), spec, floats), spec)) == Some(value)
            <==> value >= 0 || spec.width.value <= CharCount(IntText(value))
  {
    hide NumberOf, ParseInt, CharCount;
    IntTextReadsBack(value);
    if spec.width.value > CharCount(IntText(value)) {
      var fill := spec.width.value - CharCount(IntText(value));
      if value >= 0 {
        ZerosBeforeDigits(fill, value);
      } else {
        ZerosBeforeSign(fill, Decimal.Digits(-value));
      }
    }
  }
}
