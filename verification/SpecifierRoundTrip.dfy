/** The parser of specifiers undoes the way they are written. */
module SpecifierRoundTrip {
  import opened Options
  import opened Basics
  import opened Texts
  import opened Formatting
  import Decimal

  /** A specifier and one way to write it: its flags in any order and number, with those that mean
      nothing here, a precision of zero with or without its digit, and a length modifier. */
  datatype Writing = Writing(spec: Spec, flags: Utf8, point: Utf8, modifier: Utf8)

  /** What a specifier can say: an index the machine can hold, and a width and a precision within
      the cap. A width of zero cannot be written, its zero being a flag. */
  predicate Sayable(spec: Spec) {
    && (spec.index.Some? ==> spec.index.value < 0x1_0000_0000_0000_0000)
    && (spec.width.Some? ==> 0 < spec.width.value <= 1024)
    && (spec.precision.Some? ==> spec.precision.value <= 1024)
    && spec.conversion in {'@', 's', 'S', 'd', 'i', 'u', 'f', 'F'}
  }

  predicate Writable(w: Writing) {
    && Sayable(w.spec)
    && (forall i :: 0 <= i < |w.flags| ==> w.flags[i] in {'-', '0', '+', ' ', '#', '\''})
    && ('-' in w.flags <==> w.spec.leftJustify)
    && ('0' in w.flags <==> w.spec.zeroPad)
    && PointSays(w.point, w.spec.precision)
    && w.modifier in {"", "hh", "ll", "h", "l", "q", "z", "t", "j", "L"}
  }

  predicate PointSays(point: Utf8, precision: Option<nat>) {
    match precision
    case None => point == ""
    case Some(p) => point == "." + Decimal.Digits(p) || (point == "." && p == 0)
  }

  function IndexText(spec: Spec): Utf8 {
    if spec.index.None? then "" else Decimal.Digits(spec.index.value) + "$"
  }

  function WidthText(spec: Spec): Utf8 {
    if spec.width.None? then "" else Decimal.Digits(spec.width.value)
  }

  function Written(w: Writing): Utf8 {
    "%" + (IndexText(w.spec) + (w.flags + (WidthText(w.spec) + (w.point + (w.modifier + [w.spec.conversion])))))
  }

  // ------------------------------------------------------- numbers in a text

  lemma {:induction false} DigitsEndHere(bytes: Utf8, at: nat, end: nat)
    requires at <= end <= |bytes| && (forall i :: at <= i < end ==> IsDigit(bytes[i]))
    requires end < |bytes| ==> !IsDigit(bytes[end])
    ensures DigitsEnd(bytes, at) == end
    decreases end - at
  {
    if at < end {
      DigitsEndHere(bytes, at + 1, end);
    }
  }

  lemma NumberEnds(bytes: Utf8, at: nat, n: nat, tail: Utf8)
    requires at <= |bytes| && bytes[at..] == Decimal.Digits(n) + tail
    requires tail != "" && !IsDigit(tail[0])
    ensures DigitsEnd(bytes, at) == at + |Decimal.Digits(n)|
    ensures bytes[at..DigitsEnd(bytes, at)] == Decimal.Digits(n)
  {
    hide DigitsEnd, Decimal.Digits;
    var digits := Decimal.Digits(n);
    var end := at + |digits|;
    assert forall i :: 0 <= i < |digits| ==> bytes[at + i] == bytes[at..][i] == digits[i];
    assert bytes[end] == bytes[at..][|digits|] == tail[0];
    DigitsEndHere(bytes, at, end);
    assert bytes[at..end] == bytes[at..][..|digits|];
  }

  lemma FieldReadsBack(bytes: Utf8, at: nat, n: nat, tail: Utf8)
    requires at <= |bytes| && bytes[at..] == Decimal.Digits(n) + tail
    requires tail != "" && !IsDigit(tail[0]) && n <= 1024
    ensures FieldAt(bytes, at) == Present(n, at + |Decimal.Digits(n)|)
  {
    NumberEnds(bytes, at, n, tail);
    Decimal.DigitsHaveTheirValue(n);
    hide Decimal.Digits, NumberOf, DigitsEnd;
  }

  lemma NoFieldHere(bytes: Utf8, at: nat)
    requires at < |bytes| && !IsDigit(bytes[at])
    ensures FieldAt(bytes, at) == Absent
  {
  }

  /** A number that is not zero is not written with a zero first. */
  lemma {:induction false} NoLeadingZero(n: nat)
    requires n > 0
    ensures Decimal.Digits(n)[0] != '0'
  {
    if n >= 10 {
      NoLeadingZero(n / 10);
    }
  }

  // ------------------------------------------------------- stage by stage

  lemma ModifierReadsBack(bytes: Utf8, at: nat, modifier: Utf8, conversion: char, rest: Utf8)
    requires modifier in {"", "hh", "ll", "h", "l", "q", "z", "t", "j", "L"}
    requires conversion in {'@', 's', 'S', 'd', 'i', 'u', 'f', 'F'}
    requires at <= |bytes| && bytes[at..] == modifier + ([conversion] + rest)
    ensures ModifierLength(bytes, at) == |modifier|
  {
    var tail := bytes[at..];
    assert tail[|modifier|] == conversion;
    if |modifier| == 2 {
      assert modifier <= tail;
    } else if |modifier| == 1 {
      assert tail[0] == modifier[0] && bytes[at] == tail[0];
    } else {
      assert bytes[at] == tail[0] == conversion;
    }
  }

  function AfterPoint(w: Writing, rest: Utf8): Utf8 {
    w.modifier + ([w.spec.conversion] + rest)
  }

  lemma ConversionReadsBack(bytes: Utf8, at: nat, partial: Spec, w: Writing, rest: Utf8)
    requires Writable(w) && at <= |bytes| && bytes[at..] == AfterPoint(w, rest)
    ensures SpecAfterPrecision(bytes, at, partial)
            == Some(partial.(conversion := w.spec.conversion, end := at + |w.modifier| + 1))
  {
    ModifierReadsBack(bytes, at, w.modifier, w.spec.conversion, rest);
    hide ModifierLength;
    assert bytes[at + |w.modifier|] == bytes[at..][|w.modifier|] == w.spec.conversion;
  }

  lemma AfterPointIsNoDigit(w: Writing, rest: Utf8)
    requires Writable(w)
    ensures AfterPoint(w, rest) != ""
    ensures var c := AfterPoint(w, rest)[0]; !IsDigit(c) && c !in {'$', '%', '.', '-', '+', ' ', '#', '\''}
  {
    assert AfterPoint(w, rest)[0] == if w.modifier == "" then w.spec.conversion else w.modifier[0];
  }

  lemma PointReadsBack(bytes: Utf8, at: nat, partial: Spec, precision: nat, tail: Utf8)
    requires precision <= 1024 && tail != "" && !IsDigit(tail[0])
    requires at <= |bytes| && bytes[at..] == "." + Decimal.Digits(precision) + tail
    ensures var end := at + 1 + |Decimal.Digits(precision)|;
            && end <= |bytes| && bytes[end..] == tail
            && SpecAfterWidth(bytes, at, partial)
               == SpecAfterPrecision(bytes, end, partial.(precision := Some(precision)))
  {
    hide SpecAfterPrecision, FieldAt, Decimal.Digits;
    assert bytes[at] == bytes[at..][0] == '.';
    assert bytes[at + 1..] == bytes[at..][1..] == Decimal.Digits(precision) + tail;
    FieldReadsBack(bytes, at + 1, precision, tail);
    assert bytes[at + 1 + |Decimal.Digits(precision)|..] == bytes[at + 1..][|Decimal.Digits(precision)|..];
  }

  /** A point alone is a precision of zero. */
  lemma BarePointReadsBack(bytes: Utf8, at: nat, partial: Spec, tail: Utf8)
    requires tail != "" && !IsDigit(tail[0])
    requires at <= |bytes| && bytes[at..] == "." + tail
    ensures bytes[at + 1..] == tail
    ensures SpecAfterWidth(bytes, at, partial) == SpecAfterPrecision(bytes, at + 1, partial.(precision := Some(0)))
  {
    hide SpecAfterPrecision;
    assert bytes[at] == bytes[at..][0] == '.';
    assert bytes[at + 1..] == bytes[at..][1..] == tail;
    assert bytes[at + 1] == tail[0];
    NoFieldHere(bytes, at + 1);
  }

  lemma NoPointReadsBack(bytes: Utf8, at: nat, partial: Spec, tail: Utf8)
    requires tail != "" && tail[0] != '.' && at <= |bytes| && bytes[at..] == tail
    ensures SpecAfterWidth(bytes, at, partial) == SpecAfterPrecision(bytes, at, partial)
  {
    assert bytes[at] == bytes[at..][0];
  }

  function AfterWidth(w: Writing, rest: Utf8): Utf8 {
    w.point + AfterPoint(w, rest)
  }

  lemma PointStage(bytes: Utf8, at: nat, partial: Spec, point: Utf8, precision: Option<nat>, tail: Utf8)
    requires PointSays(point, precision) && (precision.Some? ==> precision.value <= 1024) && partial.precision.None?
    requires tail != "" && !IsDigit(tail[0]) && tail[0] != '.'
    requires at <= |bytes| && bytes[at..] == point + tail
    ensures var end := at + |point|;
            && end <= |bytes| && bytes[end..] == tail
            && SpecAfterWidth(bytes, at, partial) == SpecAfterPrecision(bytes, end, partial.(precision := precision))
  {
    hide SpecAfterPrecision, SpecAfterWidth, Decimal.Digits;
    if precision.None? {
      assert bytes[at..] == tail;
      NoPointReadsBack(bytes, at, partial, tail);
    } else if point == "." {
      BarePointReadsBack(bytes, at, partial, tail);
    } else {
      PointReadsBack(bytes, at, partial, precision.value, tail);
    }
  }

  lemma PointComesFirst(w: Writing, rest: Utf8)
    requires Writable(w)
    ensures AfterWidth(w, rest) == w.point + AfterPoint(w, rest)
    ensures PointSays(w.point, w.spec.precision) && (w.spec.precision.Some? ==> w.spec.precision.value <= 1024)
  {
  }

  lemma PrecisionReadsBack(bytes: Utf8, at: nat, partial: Spec, w: Writing, rest: Utf8)
    requires Writable(w) && partial.precision.None?
    requires at <= |bytes| && bytes[at..] == AfterWidth(w, rest)
    ensures SpecAfterWidth(bytes, at, partial)
            == Some(partial.(precision := w.spec.precision, conversion := w.spec.conversion,
                             end := at + |w.point| + |w.modifier| + 1))
  {
    hide *;
    PointComesFirst(w, rest);
    AfterPointIsNoDigit(w, rest);
    PointStage(bytes, at, partial, w.point, w.spec.precision, AfterPoint(w, rest));
    ConversionReadsBack(bytes, at + |w.point|, partial.(precision := w.spec.precision), w, rest);
  }

  lemma AfterWidthIsNoDigit(w: Writing, rest: Utf8)
    requires Writable(w)
    ensures AfterWidth(w, rest) != ""
    ensures var c := AfterWidth(w, rest)[0]; !IsDigit(c) && c !in {'$', '%', '-', '+', ' ', '#', '\''}
  {
    AfterPointIsNoDigit(w, rest);
    hide AfterPoint, Decimal.Digits;
    assert AfterWidth(w, rest)[0] == if w.point == "" then AfterPoint(w, rest)[0] else w.point[0];
  }

  lemma WidthIsRead(bytes: Utf8, at: nat, partial: Spec, width: nat, tail: Utf8)
    requires width <= 1024 && tail != "" && !IsDigit(tail[0])
    requires at <= |bytes| && bytes[at..] == Decimal.Digits(width) + tail
    ensures var end := at + |Decimal.Digits(width)|;
            && end <= |bytes| && bytes[end..] == tail
            && SpecAfterFlags(bytes, at, partial) == SpecAfterWidth(bytes, end, partial.(width := Some(width)))
  {
    hide SpecAfterWidth, FieldAt, Decimal.Digits;
    FieldReadsBack(bytes, at, width, tail);
    assert bytes[at + |Decimal.Digits(width)|..] == bytes[at..][|Decimal.Digits(width)|..];
  }

  lemma WidthIsAbsent(bytes: Utf8, at: nat, partial: Spec)
    requires at <= |bytes| && bytes[at..] != "" && !IsDigit(bytes[at..][0])
    ensures SpecAfterFlags(bytes, at, partial) == SpecAfterWidth(bytes, at, partial)
  {
    hide SpecAfterWidth;
    assert bytes[at] == bytes[at..][0];
    NoFieldHere(bytes, at);
  }

  lemma WidthStage(bytes: Utf8, at: nat, partial: Spec, spec: Spec, tail: Utf8)
    requires Sayable(spec) && partial.width.None? && tail != "" && !IsDigit(tail[0])
    requires at <= |bytes| && bytes[at..] == WidthText(spec) + tail
    ensures var end := at + |WidthText(spec)|;
            && end <= |bytes| && bytes[end..] == tail
            && SpecAfterFlags(bytes, at, partial) == SpecAfterWidth(bytes, end, partial.(width := spec.width))
  {
    hide SpecAfterWidth, SpecAfterFlags, FieldAt, Decimal.Digits;
    if spec.width.Some? {
      WidthIsRead(bytes, at, partial, spec.width.value, tail);
    } else {
      assert bytes[at..] == tail;
      WidthIsAbsent(bytes, at, partial);
    }
  }

  function AfterFlags(w: Writing, rest: Utf8): Utf8 {
    WidthText(w.spec) + AfterWidth(w, rest)
  }

  lemma WidthComesFirst(w: Writing, rest: Utf8)
    requires Writable(w)
    ensures AfterFlags(w, rest) == WidthText(w.spec) + AfterWidth(w, rest) && Sayable(w.spec)
  {
  }

  lemma WidthReadsBack(bytes: Utf8, at: nat, partial: Spec, w: Writing, rest: Utf8)
    requires Writable(w) && partial.precision.None? && partial.width.None?
    requires at <= |bytes| && bytes[at..] == AfterFlags(w, rest)
    ensures SpecAfterFlags(bytes, at, partial)
            == Some(partial.(width := w.spec.width, precision := w.spec.precision, conversion := w.spec.conversion,
                             end := at + |WidthText(w.spec)| + |w.point| + |w.modifier| + 1))
  {
    hide *;
    WidthComesFirst(w, rest);
    AfterWidthIsNoDigit(w, rest);
    WidthStage(bytes, at, partial, w.spec, AfterWidth(w, rest));
    PrecisionReadsBack(bytes, at + |WidthText(w.spec)|, partial.(width := w.spec.width), w, rest);
  }

  lemma AfterFlagsIsNoFlag(w: Writing, rest: Utf8)
    requires Writable(w)
    ensures AfterFlags(w, rest) != ""
    ensures AfterFlags(w, rest)[0] !in {'-', '0', '+', ' ', '#', '\'', '$', '%'}
  {
    AfterWidthIsNoDigit(w, rest);
    hide AfterWidth;
    if w.spec.width.Some? {
      NoLeadingZero(w.spec.width.value);
      assert IsDigit(Decimal.Digits(w.spec.width.value)[0]);
    }
  }

  lemma FlagsEndHere(bytes: Utf8, at: nat, flags: Utf8, tail: Utf8)
    requires at <= |bytes| && bytes[at..] == flags + tail && tail != "" && tail[0] !in FLAGS
    requires forall i :: 0 <= i < |flags| ==> flags[i] in FLAGS
    ensures var end := at + |flags|;
            FlagsEnd(bytes, at) == end <= |bytes| && bytes[at..end] == flags && bytes[end..] == tail
  {
    hide FlagsEnd;
    var end := at + |flags|;
    assert bytes[at..end] == bytes[at..][..|flags|] == flags;
    assert bytes[end..] == bytes[at..][|flags|..] == tail;
    assert bytes[end] == bytes[end..][0];
    assert forall i :: at <= i < end ==> bytes[i] == bytes[at..end][i - at];
  }

  lemma FlagsStage(bytes: Utf8, at: nat, index: Option<nat>, flags: Utf8, tail: Utf8)
    requires at <= |bytes| && bytes[at..] == flags + tail && tail != "" && tail[0] !in FLAGS
    requires forall i :: 0 <= i < |flags| ==> flags[i] in FLAGS
    ensures var end := at + |flags|;
            && end <= |bytes| && bytes[end..] == tail
            && SpecAfterIndex(bytes, at, index)
               == SpecAfterFlags(bytes, end, Spec(index, '-' in flags, '0' in flags, None, None, '%', end))
  {
    hide FlagsEnd, SpecAfterFlags;
    FlagsEndHere(bytes, at, flags, tail);
  }

  lemma FlagsReadBack(bytes: Utf8, at: nat, w: Writing, rest: Utf8)
    requires Writable(w)
    requires at <= |bytes| && bytes[at..] == w.flags + AfterFlags(w, rest)
    ensures SpecAfterIndex(bytes, at, w.spec.index)
            == Some(w.spec.(end := at + |w.flags| + |WidthText(w.spec)| + |w.point| + |w.modifier| + 1))
  {
    hide *;
    FlagsAreFlags(w, rest);
    var end := at + |w.flags|;
    FlagsStage(bytes, at, w.spec.index, w.flags, AfterFlags(w, rest));
    var partial := Spec(w.spec.index, w.spec.leftJustify, w.spec.zeroPad, None, None, '%', end);
    WidthReadsBack(bytes, end, partial, w, rest);
  }

  lemma FlagsAreFlags(w: Writing, rest: Utf8)
    requires Writable(w)
    ensures forall i :: 0 <= i < |w.flags| ==> w.flags[i] in FLAGS
    ensures AfterFlags(w, rest) != "" && AfterFlags(w, rest)[0] !in FLAGS
    ensures ('-' in w.flags <==> w.spec.leftJustify) && ('0' in w.flags <==> w.spec.zeroPad)
  {
    AfterFlagsIsNoFlag(w, rest);
    hide AfterFlags;
  }

  /** Digits end before or at the start of `tail`, and not in front of a dollar sign. */
  lemma DigitsEndWithoutDollar(bytes: Utf8, at: nat, front: Utf8, tail: Utf8)
    requires at <= |bytes| && bytes[at..] == front + tail
    requires '$' !in front && tail != "" && !IsDigit(tail[0]) && tail[0] != '$'
    ensures DigitsEnd(bytes, at) < |bytes| && bytes[DigitsEnd(bytes, at)] != '$'
  {
    hide DigitsEnd;
    var end := DigitsEnd(bytes, at);
    assert bytes[at + |front|] == bytes[at..][|front|] == tail[0];
    assert end <= at + |front|;
    if end < at + |front| {
      assert bytes[end] == bytes[at..][end - at] == front[end - at];
      assert front[end - at] in front;
    }
  }

  lemma NoDollarInDigits(n: nat)
    ensures '$' !in Decimal.Digits(n)
  {
    assert forall c :: c in Decimal.Digits(n) ==> IsDigit(c);
  }

  lemma NoDollarBeforePoint(w: Writing)
    requires Writable(w)
    ensures '$' !in w.flags + WidthText(w.spec)
  {
    hide Decimal.Digits;
    if w.spec.width.Some? {
      NoDollarInDigits(w.spec.width.value);
    }
  }

  /** Without an index, whatever digits come first are not followed by a dollar sign. */
  lemma NoIndexHere(bytes: Utf8, at: nat, w: Writing, rest: Utf8)
    requires Writable(w)
    requires at <= |bytes| && bytes[at..] == w.flags + AfterFlags(w, rest)
    ensures DigitsEnd(bytes, at) < |bytes| && bytes[DigitsEnd(bytes, at)] != '$'
  {
    hide *;
    var front, tail := w.flags + WidthText(w.spec), AfterWidth(w, rest);
    NoDollarBeforePoint(w);
    AfterWidthIsNoDigit(w, rest);
    WidthComesFirst(w, rest);
    Regroup(w.flags, WidthText(w.spec), tail);
    DigitsEndWithoutDollar(bytes, at, front, tail);
  }

  lemma IndexReadsBack(bytes: Utf8, index: nat, tail: Utf8)
    requires index < USIZE_SPAN
    requires bytes != "" && bytes[1..] == Decimal.Digits(index) + "$" + tail
    ensures SpecAt(bytes, 0) == SpecAfterIndex(bytes, 2 + |Decimal.Digits(index)|, Some(index))
    ensures bytes[2 + |Decimal.Digits(index)|..] == tail
  {
    hide SpecAfterIndex, DigitsEnd, Decimal.Digits, NumberOf;
    var digits := Decimal.Digits(index);
    assert bytes[1..] == digits + ("$" + tail);
    NumberEnds(bytes, 1, index, "$" + tail);
    Decimal.DigitsHaveTheirValue(index);
    assert bytes[1 + |digits|] == bytes[1..][|digits|] == '$';
    assert bytes[1] == bytes[1..][0] == digits[0] && IsDigit(digits[0]);
    assert bytes[2 + |digits|..] == bytes[1..][|digits| + 1..] == tail;
  }

  lemma NoIndexReadsBack(bytes: Utf8, w: Writing, rest: Utf8)
    requires Writable(w)
    requires bytes != "" && bytes[1..] == w.flags + AfterFlags(w, rest)
    ensures SpecAt(bytes, 0) == SpecAfterIndex(bytes, 1, None)
  {
    NoIndexHere(bytes, 1, w, rest);
    AfterFlagsIsNoFlag(w, rest);
    hide SpecAfterIndex, DigitsEnd, AfterFlags;
    assert bytes[1] == bytes[1..][0] == (w.flags + AfterFlags(w, rest))[0];
    assert bytes[1] != '%';
  }

  lemma IndexStage(bytes: Utf8, w: Writing, rest: Utf8)
    requires Writable(w)
    requires bytes != "" && bytes[1..] == IndexText(w.spec) + (w.flags + AfterFlags(w, rest))
    ensures 1 + |IndexText(w.spec)| <= |bytes|
    ensures SpecAt(bytes, 0) == SpecAfterIndex(bytes, 1 + |IndexText(w.spec)|, w.spec.index)
    ensures bytes[1 + |IndexText(w.spec)|..] == w.flags + AfterFlags(w, rest)
  {
    hide *;
    var tail := w.flags + AfterFlags(w, rest);
    IndexIsWritten(w);
    if w.spec.index.Some? {
      IndexReadsBack(bytes, w.spec.index.value, tail);
    } else {
      assert "" + tail == tail;
      NoIndexReadsBack(bytes, w, rest);
    }
  }

  lemma IndexIsWritten(w: Writing)
    requires Writable(w)
    ensures w.spec.index.Some? ==>
              IndexText(w.spec) == Decimal.Digits(w.spec.index.value) + "$" && w.spec.index.value < USIZE_SPAN
    ensures w.spec.index.None? ==> IndexText(w.spec) == ""
  {
  }

  lemma WrittenInParts(w: Writing, rest: Utf8)
    ensures (Written(w) + rest)[1..] == IndexText(w.spec) + (w.flags + AfterFlags(w, rest))
    ensures |Written(w)| == 1 + |IndexText(w.spec)| + |w.flags| + |WidthText(w.spec)| + |w.point| + |w.modifier| + 1
  {
    hide IndexText, WidthText;
  }

  /** However a specifier is written, parsing gives it back, wherever it stands and whatever
      follows. */
  lemma WrittenReadsBack(w: Writing, rest: Utf8)
    requires Writable(w)
    ensures SpecAt(Written(w) + rest, 0) == Some(w.spec.(end := |Written(w)|))
  {
    hide *;
    WrittenInParts(w, rest);
    IndexStage(Written(w) + rest, w, rest);
    FlagsReadBack(Written(w) + rest, 1 + |IndexText(w.spec)|, w, rest);
  }

  // ------------------------------------------------------- what it prints

  lemma WrittenIsOneToken(w: Writing)
    requires Writable(w)
    ensures Tokens(Written(w)) == [Placeholder(w.spec.(end := |Written(w)|), Written(w))]
  {
    hide SpecAt, IndexText, WidthText;
    var text := Written(w);
    assert text + "" == text;
    WrittenReadsBack(w, "");
    assert text[0] == '%' && text[0..|text|] == text;
    assert TokensFrom(text, |text|) == [];
  }

  /** A template that is one specifier prints the argument it names, the first one being number one,
      or without a number the first that is left; or itself if there is none. */
  lemma SpecifierPrintsItsArgument(w: Writing, args: seq<FormatArg>, next: nat, floats: FloatFormat)
    requires Writable(w)
    ensures var printed := Printed(Tokens(Written(w)), args, next, floats);
            match w.spec.index
            case Some(n) =>
              printed == if 1 <= n <= |args| then Pad(RenderArg(args[n - 1], w.spec, floats), w.spec) else Written(w)
            case None =>
              printed == if next < |args| then Pad(RenderArg(args[next], w.spec, floats), w.spec) else Written(w)
  {
    hide RenderArg, Pad, Tokens, Written, Writable;
    var read := w.spec.(end := |Written(w)|);
    var token := Placeholder(read, Written(w));
    WrittenIsOneToken(w);
    assert [token] == [token] + [];
    PrintedOfCons(token, [], args, next, floats);
    assert Printed([], args, if TakesNext(token) then next + 1 else next, floats) == "";
    SameRendering(w.spec, read, args, floats);
  }

  lemma SameRendering(spec: Spec, read: Spec, args: seq<FormatArg>, floats: FloatFormat)
    requires read == spec.(end := read.end)
    ensures forall i :: 0 <= i < |args| ==>
              Pad(RenderArg(args[i], read, floats), read) == Pad(RenderArg(args[i], spec, floats), spec)
  {
  }

  /** A width or a precision past the cap makes no specifier: the text stands for itself. */
  lemma TooWideIsNoSpecifier(n: nat, rest: Utf8)
    requires n > 1024 && rest != "" && !IsDigit(rest[0]) && rest[0] != '$'
    ensures SpecAt("%" + Decimal.Digits(n) + rest, 0) == None
    ensures SpecAt("%." + Decimal.Digits(n) + rest, 0) == None
  {
    hide Decimal.Digits;
    WidthTooLarge(n, rest);
    PrecisionTooLarge(n, rest);
  }

  lemma FieldTooLarge(bytes: Utf8, at: nat, n: nat, rest: Utf8)
    requires n > 1024 && rest != "" && !IsDigit(rest[0])
    requires at <= |bytes| && bytes[at..] == Decimal.Digits(n) + rest
    ensures FieldAt(bytes, at) == TooLarge
  {
    NumberEnds(bytes, at, n, rest);
    Decimal.DigitsHaveTheirValue(n);
    hide Decimal.Digits, NumberOf, DigitsEnd;
  }

  lemma WidthTooLarge(n: nat, rest: Utf8)
    requires n > 1024 && rest != "" && !IsDigit(rest[0]) && rest[0] != '$'
    ensures SpecAt("%" + Decimal.Digits(n) + rest, 0) == None
  {
    hide Decimal.Digits, DigitsEnd, FieldAt, FlagsEnd, ParseUsize;
    var digits := Decimal.Digits(n);
    var bytes := "%" + digits + rest;
    NoLeadingZero(n);
    assert bytes[1..] == digits + rest && bytes[1] == digits[0] && IsDigit(digits[0]);
    NumberEnds(bytes, 1, n, rest);
    assert bytes[1 + |digits|] == rest[0];
    FieldTooLarge(bytes, 1, n, rest);
    assert FlagsEnd(bytes, 1) == 1;
  }

  lemma PrecisionTooLarge(n: nat, rest: Utf8)
    requires n > 1024 && rest != "" && !IsDigit(rest[0])
    ensures SpecAt("%." + Decimal.Digits(n) + rest, 0) == None
  {
    hide Decimal.Digits, DigitsEnd, FieldAt, FlagsEnd, ParseUsize;
    var digits := Decimal.Digits(n);
    var bytes := "%." + digits + rest;
    assert bytes[2..] == digits + rest && bytes[1] == '.';
    NoFieldHere(bytes, 1);
    FieldTooLarge(bytes, 2, n, rest);
    assert FlagsEnd(bytes, 1) == 1;
    assert DigitsEnd(bytes, 1) == 1;
  }
}
