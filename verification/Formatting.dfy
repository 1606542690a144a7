/** Substitution into translated templates: the printf dialect. */
module Formatting {
  import opened Options
  import opened Basics
  import opened Texts
  import Decimal

  datatype FormatArg = Text(text: Utf8) | Int(value: int) | Float(number: real)

  /** How the platform writes floating-point numbers; nothing here depends on it. */
  datatype FloatFormat = FloatFormat(fixed: (real, nat) -> Utf8, shortest: real -> Utf8)

  const MAX_FIELD_WIDTH: nat := 1024
  const USIZE_SPAN: nat := 0x1_0000_0000_0000_0000
  const I64_MAX: int := 0x7FFF_FFFF_FFFF_FFFF

  datatype Spec = Spec(
    index: Option<nat>,
    leftJustify: bool,
    zeroPad: bool,
    width: Option<nat>,
    precision: Option<nat>,
    conversion: char,
    end: nat)

  const CONVERSIONS: set<char> := {'@', 's', 'S', 'd', 'i', 'u', 'f', 'F'}
  const FLAGS: set<char> := {'-', '0', '+', ' ', '#', '\''}

  // ------------------------------------------------------- one specifier

  /** Where the digits that start at `from` end. */
  function DigitsEnd(bytes: Utf8, from: nat): (end: nat)
    requires from <= |bytes|
    ensures from <= end <= |bytes|
    ensures AllDigits(bytes[from..end])
    ensures end < |bytes| ==> !IsDigit(bytes[end])
    decreases |bytes| - from
  {
    if from < |bytes| && IsDigit(bytes[from]) then
      var end := DigitsEnd(bytes, from + 1);
      assert bytes[from..end] == [bytes[from]] + bytes[from + 1..end];
      end
    else from
  }

  function FlagsEnd(bytes: Utf8, from: nat): (end: nat)
    requires from <= |bytes|
    ensures from <= end <= |bytes|
    ensures forall i :: from <= i < end ==> bytes[i] in FLAGS
    ensures end < |bytes| ==> bytes[end] !in FLAGS
    decreases |bytes| - from
  {
    if from < |bytes| && bytes[from] in FLAGS then FlagsEnd(bytes, from + 1) else from
  }

  /** A number the machine can hold; more digits than that are no number. */
  function ParseUsize(digits: Utf8): Option<nat>
    requires AllDigits(digits)
  {
    if digits == "" || NumberOf(digits) >= USIZE_SPAN then None else Some(NumberOf(digits))
  }

  function ModifierLength(bytes: Utf8, at: nat): (n: nat)
    requires at <= |bytes|
    ensures at + n <= |bytes|
  {
    if "hh" <= bytes[at..] || "ll" <= bytes[at..] then 2
    else if at < |bytes| && bytes[at] in {'h', 'l', 'q', 'z', 't', 'j', 'L'} then 1
    else 0
  }

  /** An optional number at `at`: nothing to read, too large a number, or its value and end. */
  datatype Field = Absent | TooLarge | Present(value: nat, end: nat)

  function FieldAt(bytes: Utf8, at: nat): (field: Field)
    requires at <= |bytes|
    ensures field.Present? ==> at < field.end <= |bytes|
  {
    var end := DigitsEnd(bytes, at);
    if end == at then Absent
    else
      match ParseUsize(bytes[at..end])
      case Some(n) => if n > MAX_FIELD_WIDTH then TooLarge else Present(n, end)
      case None => TooLarge
  }

  /** `%[index$][flags][width][.precision][modifier]conversion` at `start`, if that is what is
      there; a width or precision past the cap is not a specifier. */
  function SpecAt(bytes: Utf8, start: nat): (spec: Option<Spec>)
    requires start < |bytes|
    ensures spec.Some? ==> start + 1 < spec.value.end <= |bytes|
  {
    var at := start + 1;
    if at >= |bytes| then None
    else if bytes[at] == '%' then Some(Spec(None, false, false, None, None, '%', at + 1))
    else
      var digitsEnd := DigitsEnd(bytes, at);
      if digitsEnd > at && digitsEnd < |bytes| && bytes[digitsEnd] == '$' then
        match ParseUsize(bytes[at..digitsEnd])
        case None => None
        case Some(index) => SpecAfterIndex(bytes, digitsEnd + 1, Some(index))
      else SpecAfterIndex(bytes, at, None)
  }

  function SpecAfterIndex(bytes: Utf8, at: nat, index: Option<nat>): (spec: Option<Spec>)
    requires at <= |bytes|
    ensures spec.Some? ==> Completes(bytes, at, spec.value)
  {
    var end := FlagsEnd(bytes, at);
    var flags := bytes[at..end];
    SpecAfterFlags(bytes, end, Spec(index, '-' in flags, '0' in flags, None, None, '%', end))
  }

  /** `spec` ends with its conversion, somewhere past `at`. */
  predicate Completes(bytes: Utf8, at: nat, spec: Spec) {
    at < spec.end <= |bytes| && spec.conversion == bytes[spec.end - 1] && spec.conversion in CONVERSIONS
  }

  /** The rest of a specifier, `partial` being what has been read of it. */
  function SpecAfterFlags(bytes: Utf8, at: nat, partial: Spec): (spec: Option<Spec>)
    requires at <= |bytes|
    ensures spec.Some? ==> Completes(bytes, at, spec.value)
  {
    match FieldAt(bytes, at)
    case TooLarge => None
    case Absent => SpecAfterWidth(bytes, at, partial)
    case Present(width, end) => SpecAfterWidth(bytes, end, partial.(width := Some(width)))
  }

  function SpecAfterWidth(bytes: Utf8, at: nat, partial: Spec): (spec: Option<Spec>)
    requires at <= |bytes|
    ensures spec.Some? ==> Completes(bytes, at, spec.value)
  {
    if at == |bytes| || bytes[at] != '.' then SpecAfterPrecision(bytes, at, partial)
    else
      match FieldAt(bytes, at + 1)
      case TooLarge => None
      case Absent => SpecAfterPrecision(bytes, at + 1, partial.(precision := Some(0)))
      case Present(precision, end) => SpecAfterPrecision(bytes, end, partial.(precision := Some(precision)))
  }

  function SpecAfterPrecision(bytes: Utf8, at: nat, partial: Spec): (spec: Option<Spec>)
    requires at <= |bytes|
    ensures spec.Some? ==> Completes(bytes, at, spec.value)
  {
    var conversionAt := at + ModifierLength(bytes, at);
    if conversionAt == |bytes| || bytes[conversionAt] !in CONVERSIONS then None
    else Some(partial.(conversion := bytes[conversionAt], end := conversionAt + 1))
  }

  method ScanDigits(bytes: Utf8, from: nat) returns (at: nat)
    requires from <= |bytes|
    ensures at == DigitsEnd(bytes, from)
  {
    at := from;
    while at < |bytes| && IsDigit(bytes[at])
      invariant from <= at <= |bytes|
      invariant DigitsEnd(bytes, at) == DigitsEnd(bytes, from)
    {
      at := at + 1;
    }
  }

  method ScanField(bytes: Utf8, at: nat) returns (field: Field)
    requires at <= |bytes|
    ensures field == FieldAt(bytes, at)
  {
    var end := ScanDigits(bytes, at);
    if end == at {
      return Absent;
    }
    var parsed := ParseUsize(bytes[at..end]);
    if parsed.None? || parsed.value > MAX_FIELD_WIDTH {
      return TooLarge;
    }
    return Present(parsed.value, end);
  }

  method ParseSpec(bytes: Utf8, start: nat) returns (spec: Option<Spec>)
    requires start < |bytes|
    ensures spec == SpecAt(bytes, start)
  {
    hide SpecAfterIndex, DigitsEnd;
    var at := start + 1;
    if at >= |bytes| {
      return None;
    }
    if bytes[at] == '%' {
      return Some(Spec(None, false, false, None, None, '%', at + 1));
    }

    var index: Option<nat> := None;
    var digitsEnd := ScanDigits(bytes, at);
    if digitsEnd > at && digitsEnd < |bytes| && bytes[digitsEnd] == '$' {
      var parsed := ParseUsize(bytes[at..digitsEnd]);
      if parsed.None? {
        return None;
      }
      index := parsed;
      at := digitsEnd + 1;
    }
    spec := ParseAfterIndex(bytes, at, index);
  }

  method ScanFlags(bytes: Utf8, from: nat) returns (at: nat, leftJustify: bool, zeroPad: bool)
    requires from <= |bytes|
    ensures at == FlagsEnd(bytes, from)
    ensures leftJustify <==> '-' in bytes[from..at]
    ensures zeroPad <==> '0' in bytes[from..at]
  {
    at, leftJustify, zeroPad := from, false, false;
    while at < |bytes| && bytes[at] in FLAGS
      invariant from <= at <= |bytes|
      invariant FlagsEnd(bytes, at) == FlagsEnd(bytes, from)
      invariant leftJustify <==> '-' in bytes[from..at]
      invariant zeroPad <==> '0' in bytes[from..at]
    {
      assert bytes[from..at + 1] == bytes[from..at] + [bytes[at]];
      if bytes[at] == '-' {
        leftJustify := true;
      } else if bytes[at] == '0' {
        zeroPad := true;
      }
      at := at + 1;
    }
  }

  method ParseAfterIndex(bytes: Utf8, from: nat, index: Option<nat>) returns (spec: Option<Spec>)
    requires from <= |bytes|
    ensures spec == SpecAfterIndex(bytes, from, index)
  {
    var at, leftJustify, zeroPad := ScanFlags(bytes, from);
    var partial := Spec(index, leftJustify, zeroPad, None, None, '%', at);

    var width := ScanField(bytes, at);
    if width.TooLarge? {
      return None;
    }
    if width.Present? {
      at := width.end;
      partial := partial.(width := Some(width.value));
    }
    spec := ParseAfterWidth(bytes, at, partial);
  }

  method ParseAfterWidth(bytes: Utf8, from: nat, read: Spec) returns (spec: Option<Spec>)
    requires from <= |bytes|
    ensures spec == SpecAfterWidth(bytes, from, read)
  {
    hide ModifierLength, FieldAt;
    var at, partial := from, read;
    if at < |bytes| && bytes[at] == '.' {
      at := at + 1;
      var field := ScanField(bytes, at);
      if field.TooLarge? {
        return None;
      }
      partial := partial.(precision := Some(if field.Present? then field.value else 0));
      at := if field.Present? then field.end else at;
    }
    assert SpecAfterPrecision(bytes, at, partial) == SpecAfterWidth(bytes, from, read);

    at := at + ModifierLength(bytes, at);
    if at >= |bytes| || bytes[at] !in CONVERSIONS {
      return None;
    }
    return Some(partial.(conversion := bytes[at], end := at + 1));
  }

  // ------------------------------------------------------- one argument

  /** A float cut to an integer: toward zero, and clamped to 64 bits. */
  function TruncatedToInt(x: real): int {
    var whole := if x < 0.0 then -((-x).Floor) else x.Floor;
    if whole > I64_MAX then I64_MAX else if whole < -I64_MAX - 1 then -I64_MAX - 1 else whole
  }

  function IntText(n: int): Utf8 {
    if n < 0 then "-" + Decimal.Digits(-n) else Decimal.Digits(n)
  }

  function RenderArg(arg: FormatArg, spec: Spec, floats: FloatFormat): Utf8 {
    var decimals := if spec.precision.Some? then spec.precision.value else 6;
    match arg
    case Float(number) =>
      if spec.conversion in {'f', 'F'} then floats.fixed(number, decimals)
      else if spec.conversion in {'d', 'i', 'u'} then IntText(TruncatedToInt(number))
      else floats.shortest(number)
    case Int(value) =>
      if spec.conversion in {'f', 'F'} then floats.fixed(value as real, decimals) else IntText(value)
    case Text(text) =>
      if spec.precision.Some? && spec.conversion in {'@', 's', 'S'} then TakeChars(text, spec.precision.value) else text
  }

  function Repeated(c: char, n: nat): Utf8 {
    seq(n, _ => c)
  }

  function Pad(body: Utf8, spec: Spec): Utf8 {
    if spec.width.None? || CharCount(body) >= spec.width.value then body
    else
      var fill := spec.width.value - CharCount(body);
      if spec.leftJustify then body + Repeated(' ', fill)
      else Repeated(if spec.zeroPad then '0' else ' ', fill) + body
  }

  // ------------------------------------------------------- templates as tokens

  /** A byte that stands for itself, a doubled percent sign, or a field with its own text. */
  datatype Token = Literal(c: char) | Percent | Placeholder(spec: Spec, source: Utf8)

  /** The tokens of a template from `at` on. A percent sign that begins no specifier is a byte
      like any other. */
  function TokensFrom(template: Utf8, at: nat): seq<Token>
    requires at <= |template|
    decreases |template| - at
  {
    if at == |template| then []
    else if template[at] != '%' then [Literal(template[at])] + TokensFrom(template, at + 1)
    else
      match SpecAt(template, at)
      case None => [Literal('%')] + TokensFrom(template, at + 1)
      case Some(spec) =>
        [if spec.conversion == '%' then Percent else Placeholder(spec, template[at..spec.end])]
        + TokensFrom(template, spec.end)
  }

  function Tokens(template: Utf8): seq<Token> {
    TokensFrom(template, 0)
  }

  /** Which argument a field asks for, `next` being the first one not yet taken in order. */
  function ArgumentIndex(spec: Spec, next: nat): Option<nat> {
    match spec.index
    case Some(explicit) => if explicit == 0 then None else Some(explicit - 1)
    case None => Some(next)
  }

  predicate TakesNext(token: Token) {
    token.Placeholder? && token.spec.index.None?
  }

  function PrintedToken(token: Token, args: seq<FormatArg>, next: nat, floats: FloatFormat): Utf8 {
    match token
    case Literal(c) => [c]
    case Percent => "%"
    case Placeholder(spec, source) =>
      match ArgumentIndex(spec, next)
      case None => source
      case Some(i) => if i < |args| then Pad(RenderArg(args[i], spec, floats), spec) else source
  }

  function Printed(tokens: seq<Token>, args: seq<FormatArg>, next: nat, floats: FloatFormat): Utf8 {
    if tokens == [] then ""
    else
      PrintedToken(tokens[0], args, next, floats)
      + Printed(tokens[1..], args, if TakesNext(tokens[0]) then next + 1 else next, floats)
  }

  // ------------------------------------------------------- the one pass over the template

  lemma SpecEndsInAscii(bytes: Utf8, start: nat)
    requires start < |bytes| && SpecAt(bytes, start).Some?
    ensures IsAscii(bytes[SpecAt(bytes, start).value.end - 1])
  {
    hide SpecAfterIndex, DigitsEnd;
  }

  lemma SpecIsCuttable(template: Utf8, at: nat)
    requires WellFormed(template) && at < |template| && template[at] == '%'
    ensures IsBoundary(template, at) && IsBoundary(template, at + 1)
    ensures SpecAt(template, at).Some? ==> IsBoundary(template, SpecAt(template, at).value.end)
  {
    hide SpecAt;
    CutAroundAscii(template, at);
    var spec := SpecAt(template, at);
    if spec.Some? {
      SpecEndsInAscii(template, at);
      CutAroundAscii(template, spec.value.end - 1);
    }
  }

  /** Prints the specifier at `at`, or the percent sign that begins none. */
  method PrintSpecifier(template: Utf8, at: nat, args: seq<FormatArg>, next: nat, floats: FloatFormat)
    returns (piece: Utf8, end: nat, nextArg: nat)
    requires WellFormed(template) && at < |template| && template[at] == '%'
    ensures at < end <= |template| && IsBoundary(template, end)
    ensures Printed(TokensFrom(template, at), args, next, floats)
            == piece + Printed(TokensFrom(template, end), args, nextArg, floats)
  {
    hide SpecAt;
    SpecIsCuttable(template, at);
    ghost var tokens := TokensFrom(template, at);
    var parsed := ParseSpec(template, at);
    nextArg := next;
    if parsed.None? {
      piece, end := "%", at + 1;
    } else if parsed.value.conversion == '%' {
      piece, end := "%", parsed.value.end;
    } else {
      var spec := parsed.value;
      end := spec.end;
      var index := ArgumentIndex(spec, nextArg);
      if spec.index.None? {
        nextArg := nextArg + 1;
      }
      if index.Some? && index.value < |args| {
        piece := Pad(RenderArg(args[index.value], spec, floats), spec);
      } else {
        piece := Slice(template, at, spec.end);
      }
    }
    assert tokens[1..] == TokensFrom(template, end);
  }

  method FormatPrintf(template: Utf8, args: seq<FormatArg>, floats: FloatFormat) returns (out: Utf8)
    requires WellFormed(template)
    ensures out == Printed(Tokens(template), args, 0, floats)
  {
    out := "";
    var literalStart, nextArg, at := 0, 0, 0;
    while at < |template|
      invariant literalStart <= at <= |template| && IsBoundary(template, literalStart)
      invariant out + template[literalStart..at] + Printed(TokensFrom(template, at), args, nextArg, floats)
                == Printed(Tokens(template), args, 0, floats)
    {
      ghost var tail := Printed(TokensFrom(template, at), args, nextArg, floats);
      if template[at] != '%' {
        PrintedAtLiteral(template, at, args, nextArg, floats);
        OneMoreByte(template, literalStart, at, Printed(TokensFrom(template, at + 1), args, nextArg, floats));
        Regroup(out, template[literalStart..at], tail);
        Regroup(out, template[literalStart..at + 1], Printed(TokensFrom(template, at + 1), args, nextArg, floats));
        at := at + 1;
        continue;
      }
      CutAroundAscii(template, at);
      out := out + Slice(template, literalStart, at);
      var piece, end, next := PrintSpecifier(template, at, args, nextArg, floats);
      Regroup(out, piece, Printed(TokensFrom(template, end), args, next, floats));
      out := out + piece;
      at, nextArg := end, next;
      literalStart := at;
      assert out + template[literalStart..at] == out;
    }
    out := out + Slice(template, literalStart, |template|);
  }

  lemma TokensAtLiteral(template: Utf8, at: nat)
    requires at < |template| && template[at] != '%'
    ensures TokensFrom(template, at) == [Literal(template[at])] + TokensFrom(template, at + 1)
  {
  }

  lemma PrintedOfCons(token: Token, rest: seq<Token>, args: seq<FormatArg>, next: nat, floats: FloatFormat)
    ensures Printed([token] + rest, args, next, floats)
            == PrintedToken(token, args, next, floats)
               + Printed(rest, args, if TakesNext(token) then next + 1 else next, floats)
  {
    assert ([token] + rest)[1..] == rest;
  }

  lemma PrintedAtLiteral(template: Utf8, at: nat, args: seq<FormatArg>, next: nat, floats: FloatFormat)
    requires at < |template| && template[at] != '%'
    ensures Printed(TokensFrom(template, at), args, next, floats)
            == [template[at]] + Printed(TokensFrom(template, at + 1), args, next, floats)
  {
    TokensAtLiteral(template, at);
    PrintedOfCons(Literal(template[at]), TokensFrom(template, at + 1), args, next, floats);
  }

  lemma OneMoreByte(template: Utf8, from: nat, at: nat, tail: Utf8)
    requires from <= at < |template|
    ensures template[from..at] + ([template[at]] + tail) == template[from..at + 1] + tail
  {
    Regroup(template[from..at], [template[at]], tail);
    assert template[from..at + 1] == template[from..at] + [template[at]];
  }
}
