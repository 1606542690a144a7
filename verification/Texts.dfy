/** Texts as the source language slices them: by bytes, at character boundaries. */
module Texts {
  import opened Options

  /** A text is its UTF-8 bytes, one character below 256 for each. */
  type Utf8 = string

  predicate IsDigit(c: char) {
    '0' <= c <= '9'
  }

  predicate IsAscii(c: char) {
    c as int < 0x80
  }

  predicate IsContinuation(c: char) {
    0x80 <= c as int < 0xC0
  }

  /** Bytes of the character that `lead` begins, by section 3 of RFC 3629; 0 if it begins none. */
  function SequenceLength(lead: char): nat {
    var u := lead as int;
    if u < 0x80 then 1
    else if 0xC2 <= u < 0xE0 then 2
    else if 0xE0 <= u < 0xF0 then 3
    else if 0xF0 <= u < 0xF5 then 4
    else 0
  }

  ghost predicate WellFormed(s: Utf8) {
    s != "" ==>
      var n := SequenceLength(s[0]);
      && 0 < n <= |s|
      && (forall i :: 1 <= i < n ==> IsContinuation(s[i]))
      && WellFormed(s[n..])
  }

  /** Where a text may be cut; cutting it anywhere else stops the program. */
  predicate IsBoundary(s: Utf8, i: int) {
    0 <= i <= |s| && (i == 0 || i == |s| || !IsContinuation(s[i]))
  }

  function Slice(s: Utf8, from: int, to: int): Utf8
    requires IsBoundary(s, from) && IsBoundary(s, to) && from <= to
  {
    s[from..to]
  }

  /** Right before and right after an ASCII byte a well-formed text may be cut. */
  lemma {:induction false} CutAroundAscii(s: Utf8, i: nat)
    requires WellFormed(s) && i < |s| && IsAscii(s[i])
    ensures IsBoundary(s, i) && IsBoundary(s, i + 1)
    decreases |s|
  {
    var n := SequenceLength(s[0]);
    if i >= n {
      CutAroundAscii(s[n..], i - n);
      if i + 1 < |s| {
        assert s[n..][i + 1 - n] == s[i + 1];
      }
    } else {
      assert i == 0 && n == 1;
      assert 1 < |s| ==> SequenceLength(s[1..][0]) > 0;
    }
  }

  // ------------------------------------------------------- counting characters

  /** Bytes of the first character: the first byte and the continuations that follow it. */
  function FirstCharacter(s: Utf8): (n: nat)
    requires s != ""
    ensures 0 < n <= |s|
  {
    if |s| > 1 && IsContinuation(s[1]) then 1 + FirstCharacter(s[1..]) else 1
  }

  function CharCount(s: Utf8): nat
    decreases |s|
  {
    if s == "" then 0 else 1 + CharCount(s[FirstCharacter(s)..])
  }

  function TakeChars(s: Utf8, limit: nat): Utf8
    decreases |s|
  {
    if s == "" || limit == 0 then ""
    else s[..FirstCharacter(s)] + TakeChars(s[FirstCharacter(s)..], limit - 1)
  }

  // ------------------------------------------------------- texts of characters

  /** The bytes of one character, by section 3 of RFC 3629. */
  function EncodedCharacter(c: char): (bytes: Utf8)
    ensures 0 < |bytes| <= 4 && |bytes| == SequenceLength(bytes[0])
    ensures !IsContinuation(bytes[0]) && forall i :: 1 <= i < |bytes| ==> IsContinuation(bytes[i])
  {
    var u := c as int;
    if u < 0x80 then [c]
    else if u < 0x800 then [(0xC0 + u / 0x40) as char, Trailing(u)]
    else if u < 0x1_0000 then [(0xE0 + u / 0x1000) as char, Trailing(u / 0x40), Trailing(u)]
    else [(0xF0 + u / 0x4_0000) as char, Trailing(u / 0x1000), Trailing(u / 0x40), Trailing(u)]
  }

  function Trailing(n: nat): (c: char)
    ensures IsContinuation(c)
  {
    (0x80 + n % 0x40) as char
  }

  function Encoded(text: string): Utf8 {
    if text == "" then "" else EncodedCharacter(text[0]) + Encoded(text[1..])
  }

  lemma EncodedStartsCharacter(text: string)
    ensures Encoded(text) != "" ==> !IsContinuation(Encoded(text)[0])
    ensures text != "" ==> Encoded(text) != ""
  {
    if text != "" {
      assert Encoded(text)[0] == EncodedCharacter(text[0])[0];
    }
  }

  lemma {:induction false} FirstCharacterIs(bytes: Utf8, rest: Utf8)
    requires bytes != "" && forall i :: 1 <= i < |bytes| ==> IsContinuation(bytes[i])
    requires rest != "" ==> !IsContinuation(rest[0])
    ensures FirstCharacter(bytes + rest) == |bytes|
  {
    if |bytes| > 1 {
      assert (bytes + rest)[1..] == bytes[1..] + rest;
      FirstCharacterIs(bytes[1..], rest);
    } else {
      assert rest != "" ==> (bytes + rest)[1] == rest[0];
    }
  }

  /** Encoding gives a well-formed text with as many characters. */
  lemma {:induction false} EncodedIsWellFormed(text: string)
    ensures WellFormed(Encoded(text)) && CharCount(Encoded(text)) == |text|
  {
    if text != "" {
      var first, rest := EncodedCharacter(text[0]), Encoded(text[1..]);
      var s := first + rest;
      EncodedIsWellFormed(text[1..]);
      EncodedStartsCharacter(text[1..]);
      FirstCharacterIs(first, rest);
      assert s[0] == first[0] && s[|first|..] == rest;
      assert forall i :: 1 <= i < |first| ==> s[i] == first[i];
    }
  }

  /** Taking characters of the bytes takes them of the text. */
  lemma {:induction false} TakenAreCharacters(text: string, limit: nat)
    ensures TakeChars(Encoded(text), limit) == Encoded(if limit < |text| then text[..limit] else text)
  {
    if text != "" && limit > 0 {
      var first, rest := EncodedCharacter(text[0]), Encoded(text[1..]);
      EncodedStartsCharacter(text[1..]);
      FirstCharacterIs(first, rest);
      assert (first + rest)[..|first|] == first && (first + rest)[|first|..] == rest;
      TakenAreCharacters(text[1..], limit - 1);
      var taken := if limit < |text| then text[..limit] else text;
      assert taken[0] == text[0];
      assert taken[1..] == if limit - 1 < |text[1..]| then text[1..][..limit - 1] else text[1..];
    }
  }

  // ------------------------------------------------------- numbers

  predicate AllDigits(s: Utf8) {
    forall i :: 0 <= i < |s| ==> IsDigit(s[i])
  }

  function NumberOf(digits: Utf8): nat
    requires AllDigits(digits)
  {
    if digits == "" then 0
    else
      assert IsDigit(digits[|digits| - 1]);
      NumberOf(digits[..|digits| - 1]) * 10 + (digits[|digits| - 1] - '0') as nat
  }

  /** An integer with an optional sign, which the source language's parser allows. */
  function ParseInt(text: Utf8): Option<int> {
    var digits := if text != "" && (text[0] == '+' || text[0] == '-') then text[1..] else text;
    if digits == "" || !AllDigits(digits) then None
    else
      var number: int := NumberOf(digits);
      Some(if text[0] == '-' then -number else number)
  }
}
