/** Mapping whatever tag the system supplies onto a language the application ships. */
module LanguageTags {
  import opened Options
  import opened Basics
  import opened Characters

  /** Shipped codes, and other tags with the code each stands for. */
  datatype Catalogue = Catalogue(codes: set<string>, aliases: seq<(string, string)>) {
    function AliasTarget(tag: string): Option<string> {
      AliasAmong(aliases, tag)
    }

    /** What a whole tag maps to, without shortening it. */
    function Known(tag: string): Option<string> {
      if tag in codes then Some(tag) else AliasTarget(tag)
    }
  }

  function AliasAmong(aliases: seq<(string, string)>, tag: string): (target: Option<string>)
    ensures target.Some? ==> exists i :: 0 <= i < |aliases| && aliases[i].1 == target.value
  {
    if aliases == [] then None
    else if AsciiLower(aliases[0].0) == AsciiLower(tag) then Some(aliases[0].1)
    else
      var rest := AliasAmong(aliases[1..], tag);
      assert rest.Some? ==> forall i :: 0 <= i < |aliases[1..]| ==> aliases[1..][i] == aliases[i + 1];
      rest
  }

  /** The first alias spelled like the tag, but for the case of ASCII letters, is the one taken. */
  lemma {:induction false} AliasIsFound(aliases: seq<(string, string)>, tag: string, i: nat)
    requires i <= |aliases| && forall k :: 0 <= k < i ==> AsciiLower(aliases[k].0) != AsciiLower(tag)
    requires i < |aliases| ==> AsciiLower(aliases[i].0) == AsciiLower(tag)
    ensures AliasAmong(aliases, tag) == if i < |aliases| then Some(aliases[i].1) else None
  {
    if i > 0 {
      assert forall k :: 0 <= k < |aliases| - 1 ==> aliases[1..][k] == aliases[k + 1];
      AliasIsFound(aliases[1..], tag, i - 1);
    }
  }

  // ------------------------------------------------------- casing

  function LowerChar(c: char): char {
    if 'A' <= c <= 'Z' then c - 'A' + 'a' else c
  }

  function UpperChar(c: char): char {
    if 'a' <= c <= 'z' then c - 'a' + 'A' else c
  }

  predicate IsLetter(c: char) {
    'a' <= c <= 'z' || 'A' <= c <= 'Z'
  }

  predicate IsAscii(s: string) {
    forall i :: 0 <= i < |s| ==> s[i] as int < 0x80
  }

  /** The case tables of Unicode: what single characters become, which can be several, and whole
      texts in lower case, where a final sigma depends on what is around it. */
  datatype Casing = Casing(
    upper: char -> string,
    lower: char -> string,
    lowerText: string -> string,
    alphabetic: char -> bool)
  {
    /** What the tables say of ASCII, and that the case of ASCII letters makes no difference to
        the lower case of a text around them. */
    ghost predicate Standard() {
      && (forall c: char :: c as int < 0x80 ==>
            upper(c) == [UpperChar(c)] && lower(c) == [LowerChar(c)] && (alphabetic(c) <==> IsLetter(c)))
      && (forall s :: IsAscii(s) ==> lowerText(s) == AsciiLower(s))
      && (forall s :: lowerText(AsciiLower(s)) == lowerText(s))
    }

    /** What they say of every character: no mapping loses a character or yields a dash, and
        mapping a second time changes nothing. */
    ghost predicate Regular() {
      && (forall c: char :: upper(c) != "" && lower(c) != "")
      && (forall c: char, d: char :: d in upper(c) ==> upper(d) == [d])
      && (forall c: char, d: char :: d in lower(c) ==> lower(d) == [d])
      && (forall c: char :: c != '-' ==> '-' !in upper(c) && '-' !in lower(c))
      && (forall s :: lowerText(lowerText(s)) == lowerText(s))
      && (forall s :: '-' !in s ==> '-' !in lowerText(s))
    }
  }

  /** Each character replaced by what `table` has for it. */
  function Mapped(table: char -> string, s: string): string {
    if s == "" then "" else table(s[0]) + Mapped(table, s[1..])
  }

  predicate IsScript(casing: Casing, part: string) {
    |part| == 4 && forall i :: 0 <= i < 4 ==> casing.alphabetic(part[i])
  }

  /** Language lower case, script title case, region upper case. */
  function CasedPart(casing: Casing, part: string, first: bool): string {
    if first then casing.lowerText(part)
    else if IsScript(casing, part) then casing.upper(part[0]) + Mapped(casing.lower, part[1..])
    else Mapped(casing.upper, part)
  }

  function PartLength(tag: string): (n: nat)
    ensures n <= |tag| && '-' !in tag[..n] && (n < |tag| ==> tag[n] == '-')
  {
    if tag == "" || tag[0] == '-' then 0 else 1 + PartLength(tag[1..])
  }

  function Cased(casing: Casing, tag: string, first: bool): string
    decreases |tag|
  {
    var n := PartLength(tag);
    CasedPart(casing, tag[..n], first) + if n == |tag| then "" else "-" + Cased(casing, tag[n + 1..], false)
  }

  function CanonicalCase(casing: Casing, tag: string): string {
    Cased(casing, tag, true)
  }

  function Dashed(s: string): string {
    seq(|s|, i requires 0 <= i < |s| => if s[i] == '_' then '-' else s[i])
  }

  // ------------------------------------------------------- matching

  function LastDash(tag: string): (at: Option<nat>)
    ensures at.Some? ==> at.value < |tag| && tag[at.value] == '-' && '-' !in tag[at.value + 1..]
    ensures at.None? ==> '-' !in tag
  {
    if tag == "" then None
    else if tag[|tag| - 1] == '-' then Some(|tag| - 1)
    else LastDash(tag[..|tag| - 1])
  }

  /** A tag cut at one of its dashes, or not at all. */
  predicate IsCut(tag: string, n: int) {
    0 <= n <= |tag| && (n == |tag| || tag[n] == '-')
  }

  /** `code` is what the longest cut of `tag` that maps to anything maps to. */
  ghost predicate LongestMatch(catalogue: Catalogue, tag: string, code: Option<string>) {
    if code.None? then forall n :: IsCut(tag, n) ==> catalogue.Known(tag[..n]).None?
    else exists n :: IsCut(tag, n) && catalogue.Known(tag[..n]) == code
                     && forall longer :: n < longer && IsCut(tag, longer) ==> catalogue.Known(tag[..longer]).None?
  }

  function Usable(casing: Casing, raw: string): Option<string> {
    var trimmed := Trim(raw);
    if trimmed == "" || |trimmed| > 35 || AsciiLower(trimmed) in {"und", "mul"} then None
    else Some(CanonicalCase(casing, Dashed(trimmed)))
  }

  method Normalize(casing: Casing, catalogue: Catalogue, raw: string) returns (code: Option<string>)
    ensures Usable(casing, raw).None? ==> code == None
    ensures Usable(casing, raw).Some? ==> LongestMatch(catalogue, Usable(casing, raw).value, code)
  {
    var usable := Usable(casing, raw);
    if usable.None? {
      return None;
    }
    var tag := usable.value;
    ghost var whole := tag;
    while true
      invariant tag <= whole && IsCut(whole, |tag|)
      invariant forall n :: |tag| < n && IsCut(whole, n) ==> catalogue.Known(whole[..n]).None?
      decreases |tag|
    {
      assert whole[..|tag|] == tag;
      if tag in catalogue.codes {
        return Some(tag);
      }
      var target := catalogue.AliasTarget(tag);
      if target.Some? {
        return target;
      }
      var cut := LastDash(tag);
      if cut.None? {
        assert forall n :: 0 <= n < |tag| ==> whole[n] == tag[n] && tag[n] in tag;
        return None;
      }
      assert forall n :: cut.value < n < |tag| ==>
          whole[n] == tag[n] == tag[cut.value + 1..][n - cut.value - 1] && tag[n] in tag[cut.value + 1..];
      tag := tag[..cut.value];
    }
  }

  // ------------------------------------------------------- what the mapping promises

  lemma LongestMatchIsUnique(catalogue: Catalogue, tag: string, a: Option<string>, b: Option<string>)
    requires LongestMatch(catalogue, tag, a) && LongestMatch(catalogue, tag, b)
    ensures a == b
  {
    if a.Some? && b.Some? {
      var n :| IsCut(tag, n) && catalogue.Known(tag[..n]) == a
               && forall longer :: n < longer && IsCut(tag, longer) ==> catalogue.Known(tag[..longer]).None?;
      var m :| IsCut(tag, m) && catalogue.Known(tag[..m]) == b
               && forall longer :: m < longer && IsCut(tag, longer) ==> catalogue.Known(tag[..longer]).None?;
      assert n == m;
    }
  }

  /** ASCII case and the two separators are all that this forgets. */
  function Folded(s: string): string {
    AsciiLower(Dashed(s))
  }

  lemma {:induction false} FoldedTrimStart(s: string)
    ensures TrimStart(Folded(s)) == Folded(TrimStart(s))
  {
    if s != "" {
      assert Folded(s)[1..] == Folded(s[1..]);
      FoldedTrimStart(s[1..]);
    }
  }

  lemma {:induction false} FoldedTrimEnd(s: string)
    ensures TrimEnd(Folded(s)) == Folded(TrimEnd(s))
  {
    if s != "" {
      assert Folded(s)[..|s| - 1] == Folded(s[..|s| - 1]);
      FoldedTrimEnd(s[..|s| - 1]);
    }
  }

  lemma {:induction false} PartLengthOfLower(tag: string)
    ensures PartLength(AsciiLower(tag)) == PartLength(tag)
  {
    if tag != "" {
      assert AsciiLower(tag)[1..] == AsciiLower(tag[1..]);
      PartLengthOfLower(tag[1..]);
    }
  }

  lemma {:induction false} MappedOfLower(table: char -> string, s: string)
    requires forall c: char :: table(LowerChar(c)) == table(c)
    ensures Mapped(table, AsciiLower(s)) == Mapped(table, s)
  {
    if s != "" {
      assert AsciiLower(s)[0] == LowerChar(s[0]) && AsciiLower(s)[1..] == AsciiLower(s[1..]);
      MappedOfLower(table, s[1..]);
    }
  }

  /** The tables do not tell the cases of an ASCII letter apart. */
  lemma TablesOfLower(casing: Casing, c: char)
    requires casing.Standard()
    ensures casing.upper(LowerChar(c)) == casing.upper(c) && casing.lower(LowerChar(c)) == casing.lower(c)
    ensures casing.alphabetic(LowerChar(c)) <==> casing.alphabetic(c)
  {
    if 'A' <= c <= 'Z' {
      assert c as int < 0x80 && LowerChar(c) as int < 0x80;
    }
  }

  lemma CasedPartOfLower(casing: Casing, part: string, first: bool)
    requires casing.Standard()
    ensures CasedPart(casing, AsciiLower(part), first) == CasedPart(casing, part, first)
  {
    forall c: char
      ensures casing.upper(LowerChar(c)) == casing.upper(c) && casing.lower(LowerChar(c)) == casing.lower(c)
      ensures casing.alphabetic(LowerChar(c)) <==> casing.alphabetic(c)
    {
      TablesOfLower(casing, c);
    }
    assert forall i :: 0 <= i < |part| ==> AsciiLower(part)[i] == LowerChar(part[i]);
    MappedOfLower(casing.upper, part);
    if |part| == 4 {
      assert AsciiLower(part)[1..] == AsciiLower(part[1..]);
      MappedOfLower(casing.lower, part[1..]);
    }
  }

  lemma {:induction false} CasedOfLower(casing: Casing, tag: string, first: bool)
    requires casing.Standard()
    ensures Cased(casing, AsciiLower(tag), first) == Cased(casing, tag, first)
    decreases |tag|
  {
    hide CasedPart;
    var n := PartLength(tag);
    PartLengthOfLower(tag);
    assert AsciiLower(tag)[..n] == AsciiLower(tag[..n]);
    CasedPartOfLower(casing, tag[..n], first);
    if n < |tag| {
      assert AsciiLower(tag)[n + 1..] == AsciiLower(tag[n + 1..]);
      CasedOfLower(casing, tag[n + 1..], false);
    }
  }

  lemma LowerIsFoldedWithoutSeparators(s: string, word: string)
    requires '-' !in word && '_' !in word
    ensures AsciiLower(s) == word <==> Folded(s) == word
  {
    if AsciiLower(s) == word {
      forall i | 0 <= i < |s| ensures Folded(s)[i] == word[i] {
        assert word[i] in word;
        assert AsciiLower(s)[i] == word[i];
      }
    }
    if Folded(s) == word {
      forall i | 0 <= i < |s| ensures AsciiLower(s)[i] == word[i] {
        assert word[i] in word;
        assert Folded(s)[i] == word[i];
      }
    }
  }

  /** Equal, the two cases of an ASCII letter, or the two separators. */
  predicate SameCharacter(c: char, d: char) {
    || c == d
    || (c in {'-', '_'} && d in {'-', '_'})
    || ('A' <= c <= 'Z' && d as int == c as int + 32)
    || ('A' <= d <= 'Z' && c as int == d as int + 32)
  }

  lemma FoldedAlikeIff(a: string, b: string)
    ensures Folded(a) == Folded(b) <==> |a| == |b| && forall i :: 0 <= i < |a| ==> SameCharacter(a[i], b[i])
  {
    assert |Folded(a)| == |a| && |Folded(b)| == |b|;
    if |a| == |b| {
      forall i | 0 <= i < |a| ensures Folded(a)[i] == Folded(b)[i] <==> SameCharacter(a[i], b[i]) {
        FoldedCharacters(a[i], b[i]);
      }
    }
  }

  lemma FoldedCharacters(c: char, d: char)
    ensures LowerChar(if c == '_' then '-' else c) == LowerChar(if d == '_' then '-' else d) <==> SameCharacter(c, d)
  {
  }

  /** White space around a tag does not matter. A tag says something if it is neither empty nor
      longer than the 35 characters that section 4.4.1 of RFC 5646 asks for, and neither of the two
      tags for an unknown and for several languages. */
  lemma UsableBetweenBlanks(casing: Casing, before: string, tag: string, after: string)
    requires AllBlank(before) && AllBlank(after)
    ensures Usable(casing, before) == None
    ensures Trimmed(tag) ==>
              Usable(casing, before + tag + after)
              == if |tag| <= 35 && AsciiLower(tag) != "und" && AsciiLower(tag) != "mul"
                 then Some(CanonicalCase(casing, Dashed(tag)))
                 else None
  {
    hide Trim, CanonicalCase;
    TrimOfBlank(before);
    if Trimmed(tag) {
      TrimBetween(before, tag, after);
    }
  }

  /** Tags that differ only in ASCII case, in underscores for dashes and in the white space
      around them are the same tag. */
  lemma UsableFoldsCaseAndSeparators(casing: Casing, a: string, b: string)
    requires casing.Standard()
    requires Folded(a) == Folded(b)
    ensures Usable(casing, a) == Usable(casing, b)
  {
    FoldedTrimStart(a);
    FoldedTrimStart(b);
    FoldedTrimEnd(TrimStart(a));
    FoldedTrimEnd(TrimStart(b));
    var x, y := Trim(a), Trim(b);
    assert Folded(x) == Folded(y);
    assert |Folded(x)| == |x| && |Folded(y)| == |y|;
    LowerIsFoldedWithoutSeparators(x, "und");
    LowerIsFoldedWithoutSeparators(y, "und");
    LowerIsFoldedWithoutSeparators(x, "mul");
    LowerIsFoldedWithoutSeparators(y, "mul");
    CasedOfLower(casing, Dashed(x), true);
    CasedOfLower(casing, Dashed(y), true);
  }

  /** What every shipped catalogue satisfies: its codes are spelled the canonical way, and an
      alias stands for a shipped code. */
  ghost predicate Consistent(casing: Casing, catalogue: Catalogue) {
    && (forall code :: code in catalogue.codes ==> Usable(casing, code) == Some(code))
    && (forall i :: 0 <= i < |catalogue.aliases| ==> catalogue.aliases[i].1 in catalogue.codes)
  }

  /** The mapping lands on shipped codes, and maps those to themselves. */
  lemma NormalizedIsShippedAndStable(casing: Casing, catalogue: Catalogue, raw: string, code: string,
                                     again: Option<string>)
    requires Consistent(casing, catalogue) && Usable(casing, raw).Some?
    requires LongestMatch(catalogue, Usable(casing, raw).value, Some(code))
    ensures code in catalogue.codes && Usable(casing, code) == Some(code)
    ensures LongestMatch(catalogue, code, again) ==> again == Some(code)
  {
    var tag := Usable(casing, raw).value;
    var n :| IsCut(tag, n) && catalogue.Known(tag[..n]) == Some(code);
    assert code in catalogue.codes;
    assert code[..|code|] == code;
    assert LongestMatch(catalogue, code, Some(code)) by {
      assert IsCut(code, |code|) && catalogue.Known(code[..|code|]) == Some(code);
    }
    if LongestMatch(catalogue, code, again) {
      LongestMatchIsUnique(catalogue, code, again, Some(code));
    }
  }

  lemma LowerAdds(a: string, b: string)
    ensures AsciiLower(a + b) == AsciiLower(a) + AsciiLower(b)
  {
  }

  lemma {:induction false} LowerOfMapped(table: char -> string, s: string)
    requires forall c: char :: c as int < 0x80 ==> table(c) == [UpperChar(c)] || table(c) == [LowerChar(c)]
    requires IsAscii(s)
    ensures AsciiLower(Mapped(table, s)) == AsciiLower(s)
  {
    if s != "" {
      LowerOfMapped(table, s[1..]);
      LowerAdds(table(s[0]), Mapped(table, s[1..]));
      LowerAdds([s[0]], s[1..]);
      assert s == [s[0]] + s[1..];
      assert AsciiLower([UpperChar(s[0])]) == AsciiLower([LowerChar(s[0])]) == AsciiLower([s[0]]);
    }
  }

  lemma LowerOfScript(casing: Casing, part: string)
    requires casing.Standard() && IsAscii(part) && part != ""
    ensures AsciiLower(casing.upper(part[0]) + Mapped(casing.lower, part[1..])) == AsciiLower(part)
  {
    hide Mapped;
    LowerOfMapped(casing.lower, part[1..]);
    LowerAdds(casing.upper(part[0]), Mapped(casing.lower, part[1..]));
    LowerAdds([part[0]], part[1..]);
    assert part == [part[0]] + part[1..];
    assert AsciiLower([UpperChar(part[0])]) == AsciiLower([part[0]]);
  }

  lemma LowerTwice(s: string)
    ensures AsciiLower(AsciiLower(s)) == AsciiLower(s)
  {
  }

  lemma LowerOfCasedPart(casing: Casing, part: string, first: bool)
    requires casing.Standard() && IsAscii(part)
    ensures AsciiLower(CasedPart(casing, part, first)) == AsciiLower(part)
  {
    hide Mapped, AsciiLower;
    if first {
      LowerTwice(part);
    } else if IsScript(casing, part) {
      LowerOfScript(casing, part);
    } else {
      LowerOfMapped(casing.upper, part);
    }
  }

  lemma {:induction false} LowerOfCased(casing: Casing, tag: string, first: bool)
    requires casing.Standard() && IsAscii(tag)
    ensures AsciiLower(Cased(casing, tag, first)) == AsciiLower(tag)
    decreases |tag|
  {
    hide AsciiLower, CasedPart, Casing.Standard;
    var n := PartLength(tag);
    LowerOfCasedPart(casing, tag[..n], first);
    var head := CasedPart(casing, tag[..n], first);
    if n == |tag| {
      assert tag[..n] == tag && head + "" == head;
    } else {
      var rest := tag[n + 1..];
      LowerOfCased(casing, rest, false);
      assert tag == tag[..n] + ("-" + rest);
      LowerAdds(tag[..n], "-" + rest);
      LowerAdds("-", rest);
      LowerAdds(head, "-" + Cased(casing, rest, false));
      LowerAdds("-", Cased(casing, rest, false));
    }
  }

  lemma {:induction false} PartLengthIs(part: string, rest: string)
    requires '-' !in part
    ensures PartLength(part) == |part| && PartLength(part + "-" + rest) == |part|
  {
    if part != "" {
      assert (part + "-" + rest)[1..] == part[1..] + "-" + rest;
      PartLengthIs(part[1..], rest);
    }
  }

  // ------------------------------------------------------- casing twice

  /** The subtags of a tag, the language first. */
  function Subtags(tag: string): (parts: seq<string>)
    ensures parts != []
    decreases |tag|
  {
    var n := PartLength(tag);
    [tag[..n]] + if n == |tag| then [] else Subtags(tag[n + 1..])
  }

  /** A subtag after the first is cased once and for all: it is a script both before and after, or
      at neither time, or what it comes out as is spelled the way of the other kind already. */
  predicate Settles(casing: Casing, part: string) {
    var once := CasedPart(casing, part, false);
    || (IsScript(casing, part) <==> IsScript(casing, once))
    || once == if IsScript(casing, part) then Mapped(casing.upper, once)
               else casing.upper(once[0]) + Mapped(casing.lower, once[1..])
  }

  lemma {:induction false} MappedIsLonger(table: char -> string, s: string)
    requires forall c: char :: table(c) != ""
    ensures |Mapped(table, s)| >= |s|
  {
    if s != "" {
      MappedIsLonger(table, s[1..]);
    }
  }

  lemma {:induction false} MappedAdds(table: char -> string, a: string, b: string)
    ensures Mapped(table, a + b) == Mapped(table, a) + Mapped(table, b)
  {
    if a == "" {
      assert a + b == b;
    } else {
      assert (a + b)[1..] == a[1..] + b;
      MappedAdds(table, a[1..], b);
    }
  }

  lemma {:induction false} MappedFixed(table: char -> string, s: string)
    requires forall d :: d in s ==> table(d) == [d]
    ensures Mapped(table, s) == s
  {
    if s != "" {
      assert s[0] in s && forall d :: d in s[1..] ==> d in s;
      MappedFixed(table, s[1..]);
    }
  }

  lemma {:induction false} MappedTwice(table: char -> string, s: string)
    requires forall c: char, d: char :: d in table(c) ==> table(d) == [d]
    ensures Mapped(table, Mapped(table, s)) == Mapped(table, s)
  {
    if s != "" {
      MappedTwice(table, s[1..]);
      MappedFixed(table, table(s[0]));
      MappedAdds(table, table(s[0]), Mapped(table, s[1..]));
    }
  }

  lemma {:induction false} MappedHasNoDash(table: char -> string, s: string)
    requires '-' !in s && forall c: char :: c != '-' ==> '-' !in table(c)
    ensures '-' !in Mapped(table, s)
  {
    if s != "" {
      assert s[0] in s;
      MappedHasNoDash(table, s[1..]);
    }
  }

  lemma CasedPartHasNoDash(casing: Casing, part: string, first: bool)
    requires casing.Regular() && '-' !in part
    ensures '-' !in CasedPart(casing, part, first)
  {
    if !first {
      MappedHasNoDash(casing.upper, part);
      if IsScript(casing, part) {
        assert part[0] in part;
        MappedHasNoDash(casing.lower, part[1..]);
      }
    }
  }

  /** A script that stays one keeps its four characters, its capital and its small letters. */
  lemma ScriptTwice(casing: Casing, part: string)
    requires casing.Regular() && IsScript(casing, part)
    requires IsScript(casing, CasedPart(casing, part, false))
    ensures CasedPart(casing, CasedPart(casing, part, false), false) == CasedPart(casing, part, false)
  {
    var head, tail := casing.upper(part[0]), Mapped(casing.lower, part[1..]);
    var once := CasedPart(casing, part, false);
    MappedIsLonger(casing.lower, part[1..]);
    assert |head| == 1;
    assert once[0] == head[0] && head[0] in head && once[1..] == tail;
    MappedTwice(casing.lower, part[1..]);
  }

  lemma PartIsStableIff(casing: Casing, part: string)
    requires casing.Regular()
    ensures CasedPart(casing, CasedPart(casing, part, false), false) == CasedPart(casing, part, false)
            <==> Settles(casing, part)
  {
    var once := CasedPart(casing, part, false);
    if IsScript(casing, part) && IsScript(casing, once) {
      ScriptTwice(casing, part);
    } else if !IsScript(casing, part) && !IsScript(casing, once) {
      MappedTwice(casing.upper, part);
    }
  }

  /** Texts cut at their first dash. */
  lemma SameCut(a: string, b: string, c: string, d: string)
    requires '-' !in a && '-' !in c
    ensures a + "-" + b == c + "-" + d <==> a == c && b == d
  {
    PartLengthIs(a, b);
    PartLengthIs(c, d);
    assert (a + "-" + b)[..|a|] == a && (a + "-" + b)[|a| + 1..] == b;
    assert (c + "-" + d)[..|c|] == c && (c + "-" + d)[|c| + 1..] == d;
  }

  lemma CasedOfJoined(casing: Casing, part: string, rest: string, first: bool)
    requires '-' !in part
    ensures Cased(casing, part, first) == CasedPart(casing, part, first)
    ensures Cased(casing, part + "-" + rest, first)
            == CasedPart(casing, part, first) + "-" + Cased(casing, rest, false)
  {
    hide CasedPart, PartLength;
    PartLengthIs(part, rest);
    var tag := part + "-" + rest;
    assert tag[..|part|] == part && tag[|part| + 1..] == rest && part[..|part|] == part;
    assert CasedPart(casing, part, first) + "" == CasedPart(casing, part, first);
    Regroup(CasedPart(casing, part, first), "-", Cased(casing, rest, false));
  }

  ghost predicate AllSettle(casing: Casing, parts: seq<string>, from: nat) {
    forall i :: from <= i < |parts| ==> Settles(casing, parts[i])
  }

  lemma HeadAndTailSettle(casing: Casing, head: string, tail: seq<string>, first: bool)
    ensures AllSettle(casing, [head] + tail, if first then 1 else 0)
            <==> (first || Settles(casing, head)) && AllSettle(casing, tail, 0)
  {
    hide Settles;
    var parts := [head] + tail;
    assert forall i :: 0 <= i < |tail| ==> parts[i + 1] == tail[i];
    assert parts[0] == head;
    if AllSettle(casing, parts, if first then 1 else 0) {
      forall i | 0 <= i < |tail| ensures Settles(casing, tail[i]) {
        assert Settles(casing, parts[i + 1]);
      }
    }
  }

  lemma HeadIsStableIff(casing: Casing, part: string, first: bool)
    requires casing.Regular()
    ensures CasedPart(casing, CasedPart(casing, part, first), first) == CasedPart(casing, part, first)
            <==> first || Settles(casing, part)
  {
    if !first {
      PartIsStableIff(casing, part);
    }
  }

  lemma {:induction false} CasedTwiceIff(casing: Casing, tag: string, first: bool)
    requires casing.Regular()
    ensures Cased(casing, Cased(casing, tag, first), first) == Cased(casing, tag, first)
            <==> AllSettle(casing, Subtags(tag), if first then 1 else 0)
    decreases |tag|
  {
    hide CasedPart, Settles, AllSettle, Casing.Regular;
    var n := PartLength(tag);
    var part := tag[..n];
    var once := CasedPart(casing, part, first);
    CasedPartHasNoDash(casing, part, first);
    CasedPartHasNoDash(casing, once, first);
    HeadIsStableIff(casing, part, first);
    if n == |tag| {
      assert tag == part;
      CasedOfJoined(casing, part, "", first);
      CasedOfJoined(casing, once, "", first);
      HeadAndTailSettle(casing, part, [], first);
      NothingToSettle(casing);
    } else {
      var rest := tag[n + 1..];
      assert tag == part + "-" + rest;
      CasedOfJoined(casing, part, rest, first);
      CasedOfJoined(casing, once, Cased(casing, rest, false), first);
      SameCut(CasedPart(casing, once, first), Cased(casing, Cased(casing, rest, false), false),
              once, Cased(casing, rest, false));
      CasedTwiceIff(casing, rest, false);
      HeadAndTailSettle(casing, part, Subtags(rest), first);
    }
  }

  lemma NothingToSettle(casing: Casing)
    ensures AllSettle(casing, [], 0)
  {
  }

  /** Casing a tag a second time changes nothing exactly when every subtag after the first is cased
      once and for all. */
  lemma CanonicalCaseIsStableIff(casing: Casing, tag: string)
    requires casing.Regular()
    ensures CanonicalCase(casing, CanonicalCase(casing, tag)) == CanonicalCase(casing, tag)
            <==> forall i :: 1 <= i < |Subtags(tag)| ==> Settles(casing, Subtags(tag)[i])
  {
    CasedTwiceIff(casing, tag, true);
  }

  /** Canonical casing of an ASCII tag changes nothing but case, and casing it a second time
      changes nothing. */
  lemma CanonicalCaseIsStable(casing: Casing, tag: string)
    requires casing.Standard() && IsAscii(tag)
    ensures AsciiLower(CanonicalCase(casing, tag)) == AsciiLower(tag)
    ensures CanonicalCase(casing, CanonicalCase(casing, tag)) == CanonicalCase(casing, tag)
  {
    LowerOfCased(casing, tag, true);
    CasedOfLower(casing, tag, true);
    CasedOfLower(casing, CanonicalCase(casing, tag), true);
  }

  // ------------------------------------------------------- what casing gives

  predicate FourLetters(part: string) {
    |part| == 4 && forall i :: 0 <= i < 4 ==> 'a' <= part[i] <= 'z' || 'A' <= part[i] <= 'Z'
  }

  predicate NoCapitals(s: string) {
    forall i :: 0 <= i < |s| ==> !('A' <= s[i] <= 'Z')
  }

  predicate NoSmallLetters(s: string) {
    forall i :: 0 <= i < |s| ==> !('a' <= s[i] <= 'z')
  }

  /** A language in small letters, a script with a capital first, anything else in capitals. */
  predicate Spelled(part: string, first: bool) {
    if first then NoCapitals(part)
    else if FourLetters(part) then NoSmallLetters(part[..1]) && NoCapitals(part[1..])
    else NoSmallLetters(part)
  }

  lemma {:induction false} MappedEach(table: char -> string, each: char -> char, s: string)
    requires IsAscii(s) && forall c: char :: c as int < 0x80 ==> table(c) == [each(c)]
    ensures Mapped(table, s) == seq(|s|, i requires 0 <= i < |s| => each(s[i]))
  {
    if s != "" {
      MappedEach(table, each, s[1..]);
    }
  }

  lemma ScriptIsSpelled(casing: Casing, part: string)
    requires casing.Standard() && IsAscii(part) && FourLetters(part)
    ensures Spelled(casing.upper(part[0]) + Mapped(casing.lower, part[1..]), false)
  {
    hide Mapped;
    MappedEach(casing.lower, c => LowerChar(c), part[1..]);
    var head, tail := casing.upper(part[0]), Mapped(casing.lower, part[1..]);
    assert head == [UpperChar(part[0])] && |tail| == 3;
    assert forall i :: 0 <= i < 3 ==> tail[i] == LowerChar(part[i + 1]);
    assert (head + tail)[..1] == head && (head + tail)[1..] == tail;
    assert forall i :: 1 <= i < 4 ==> (head + tail)[i] == tail[i - 1];
  }

  lemma OtherIsSpelled(casing: Casing, part: string)
    requires casing.Standard() && IsAscii(part) && !FourLetters(part)
    ensures Spelled(Mapped(casing.upper, part), false)
  {
    hide Mapped;
    MappedEach(casing.upper, c => UpperChar(c), part);
    var once := Mapped(casing.upper, part);
    assert forall i :: 0 <= i < |part| ==> once[i] == UpperChar(part[i]);
    assert !FourLetters(once);
  }

  lemma CasedPartIsSpelled(casing: Casing, part: string, first: bool)
    requires casing.Standard() && IsAscii(part)
    ensures Spelled(CasedPart(casing, part, first), first)
  {
    hide Mapped;
    if !first {
      assert IsScript(casing, part) <==> FourLetters(part);
      hide Spelled, FourLetters;
      if FourLetters(part) {
        ScriptIsSpelled(casing, part);
      } else {
        OtherIsSpelled(casing, part);
      }
    }
  }

  lemma AsciiPartHasNoDash(casing: Casing, part: string, first: bool)
    requires casing.Standard() && IsAscii(part) && '-' !in part
    ensures '-' !in CasedPart(casing, part, first)
  {
    hide CasedPart;
    LowerOfCasedPart(casing, part, first);
    DashesSurviveCasing(part, CasedPart(casing, part, first));
  }

  lemma DashesSurviveCasing(a: string, b: string)
    requires AsciiLower(a) == AsciiLower(b) && '-' !in a
    ensures '-' !in b
  {
    assert |AsciiLower(a)| == |a| && |AsciiLower(b)| == |b|;
    forall i | 0 <= i < |b| ensures b[i] != '-' {
      assert AsciiLower(b)[i] == AsciiLower(a)[i] && a[i] in a;
    }
  }

  lemma SubtagsOfJoined(part: string, rest: string)
    requires '-' !in part
    ensures Subtags(part) == [part] && Subtags(part + "-" + rest) == [part] + Subtags(rest)
  {
    PartLengthIs(part, rest);
    var tag := part + "-" + rest;
    assert part[..|part|] == part && tag[..|part|] == part && tag[|part| + 1..] == rest;
  }

  lemma {:induction false} CasedIsSpelled(casing: Casing, tag: string, first: bool)
    requires casing.Standard() && IsAscii(tag)
    ensures var parts := Subtags(Cased(casing, tag, first));
            |parts| == |Subtags(tag)| && forall i :: 0 <= i < |parts| ==> Spelled(parts[i], first && i == 0)
    decreases |tag|
  {
    hide CasedPart, Spelled, Casing.Standard, Cased;
    var n := PartLength(tag);
    var part := tag[..n];
    var once := CasedPart(casing, part, first);
    CasedPartIsSpelled(casing, part, first);
    AsciiPartHasNoDash(casing, part, first);
    if n == |tag| {
      assert tag == part;
      CasedOfJoined(casing, part, "", first);
      SubtagsOfJoined(once, "");
    } else {
      var rest := tag[n + 1..];
      assert tag == part + "-" + rest;
      CasedIsSpelled(casing, rest, false);
      CasedOfJoined(casing, part, rest, first);
      SubtagsOfJoined(once, Cased(casing, rest, false));
    }
  }

  /** An ASCII tag comes out with as many subtags, the language in small letters, each script in
      title case and everything else in capitals. */
  lemma CanonicalSpelling(casing: Casing, tag: string)
    requires casing.Standard() && IsAscii(tag)
    ensures var parts := Subtags(CanonicalCase(casing, tag));
            |parts| == |Subtags(tag)| && forall i :: 0 <= i < |parts| ==> Spelled(parts[i], i == 0)
  {
    CasedIsSpelled(casing, tag, true);
  }

  lemma TwoParts(casing: Casing, language: string, script: string)
    requires '-' !in language && '-' !in script
    ensures CanonicalCase(casing, language + "-" + script)
            == CasedPart(casing, language, true) + ("-" + CasedPart(casing, script, false))
  {
    hide Cased, CasedPart;
    CasedOfJoined(casing, language, script, true);
    CasedOfJoined(casing, script, "", false);
    Regroup(CasedPart(casing, language, true), "-", CasedPart(casing, script, false));
  }

  lemma MappedAbc(casing: Casing)
    requires casing.Standard()
    ensures Mapped(casing.lower, "abc") == "abc" && Mapped(casing.upper, "abc") == "ABC"
  {
    assert "abc"[1..] == "bc" && "bc"[1..] == "c" && "c"[1..] == "";
    assert casing.lower('a') == "a" && casing.lower('b') == "b" && casing.lower('c') == "c";
    assert casing.upper('a') == "A" && casing.upper('b') == "B" && casing.upper('c') == "C";
  }

  lemma MappedGrown(casing: Casing)
    requires casing.Standard()
    ensures Mapped(casing.upper, "SSabc") == "SSABC"
  {
    MappedAbc(casing);
    assert casing.upper('S') == "S";
    assert "SSabc"[1..] == "Sabc" && "Sabc"[1..] == "abc";
  }

  lemma SharpSGrows(casing: Casing)
    requires casing.Standard() && casing.alphabetic('\U{DF}') && casing.upper('\U{DF}') == "SS"
    ensures CasedPart(casing, "\U{DF}abc", false) == "SSabc"
  {
    MappedAbc(casing);
    hide Mapped;
    assert casing.alphabetic('a') && casing.alphabetic('b') && casing.alphabetic('c');
    assert "\U{DF}abc"[1..] == "abc";
  }

  /** A subtag whose casing can be cased further keeps the whole tag from being stable. */
  lemma TwoPartsTwice(casing: Casing, language: string, script: string, once: string, twice: string)
    requires '-' !in language && '-' !in script && '-' !in once
    requires CasedPart(casing, language, true) == language
    requires CasedPart(casing, script, false) == once && CasedPart(casing, once, false) == twice
    ensures CanonicalCase(casing, language + "-" + script) == language + "-" + once
    ensures CanonicalCase(casing, language + "-" + once) == language + "-" + twice
  {
    hide CanonicalCase, Cased, CasedPart;
    TwoParts(casing, language, script);
    TwoParts(casing, language, once);
  }

  /** Outside ASCII neither holds. A letter whose capital is two makes a script subtag longer, so
      that the second time it is taken for a region. */
  lemma SharpSIsNotStable(casing: Casing)
    requires casing.Standard() && casing.alphabetic('\U{DF}') && casing.upper('\U{DF}') == "SS"
    ensures CanonicalCase(casing, "x" + "-" + "\U{DF}abc") == "x" + "-" + "SSabc"
    ensures CanonicalCase(casing, "x" + "-" + "SSabc") == "x" + "-" + "SSABC"
  {
    assert casing.lowerText("x") == AsciiLower("x");
    MappedGrown(casing);
    SharpSGrows(casing);
    hide Mapped;
    TwoPartsTwice(casing, "x", "\U{DF}abc", "SSabc", "SSABC");
  }
}
