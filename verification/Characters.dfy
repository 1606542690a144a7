/** Texts as sequences of characters: white space and ASCII case. */
module Characters {
  /** The characters with the Unicode property White_Space. */
  predicate IsWhitespace(c: char) {
    var u := c as int;
    || 0x9 <= u <= 0xD || u == 0x20 || u == 0x85 || u == 0xA0 || u == 0x1680 || 0x2000 <= u <= 0x200A
    || u == 0x2028 || u == 0x2029 || u == 0x202F || u == 0x205F || u == 0x3000
  }

  function TrimStart(s: string): string {
    if s != "" && IsWhitespace(s[0]) then TrimStart(s[1..]) else s
  }

  function TrimEnd(s: string): string {
    if s != "" && IsWhitespace(s[|s| - 1]) then TrimEnd(s[..|s| - 1]) else s
  }

  function Trim(s: string): string {
    TrimEnd(TrimStart(s))
  }

  predicate AllBlank(s: string) {
    forall i :: 0 <= i < |s| ==> IsWhitespace(s[i])
  }

  /** With something at both ends that is not blank. */
  predicate Trimmed(s: string) {
    s != "" && !IsWhitespace(s[0]) && !IsWhitespace(s[|s| - 1])
  }

  lemma {:induction false} TrimStartSkips(blank: string, s: string)
    requires AllBlank(blank) && (s != "" ==> !IsWhitespace(s[0]))
    ensures TrimStart(blank + s) == s
  {
    if blank == "" {
      assert blank + s == s;
    } else {
      assert (blank + s)[1..] == blank[1..] + s;
      TrimStartSkips(blank[1..], s);
    }
  }

  lemma {:induction false} TrimEndSkips(s: string, blank: string)
    requires AllBlank(blank) && (s != "" ==> !IsWhitespace(s[|s| - 1]))
    ensures TrimEnd(s + blank) == s
    decreases |blank|
  {
    if blank == "" {
      assert s + blank == s;
    } else {
      assert (s + blank)[..|s + blank| - 1] == s + blank[..|blank| - 1];
      TrimEndSkips(s, blank[..|blank| - 1]);
    }
  }

  /** Trimming takes away the blanks around a text and nothing else. */
  lemma TrimBetween(before: string, s: string, after: string)
    requires AllBlank(before) && AllBlank(after) && Trimmed(s)
    ensures Trim(before + s + after) == s
  {
    assert before + s + after == before + (s + after);
    TrimStartSkips(before, s + after);
    TrimEndSkips(s, after);
  }

  lemma TrimOfBlank(blank: string)
    requires AllBlank(blank)
    ensures Trim(blank) == ""
  {
    TrimStartSkips(blank, "");
    assert blank + "" == blank;
  }

  function AsciiLower(s: string): string {
    seq(|s|, i requires 0 <= i < |s| => if 'A' <= s[i] <= 'Z' then s[i] - 'A' + 'a' else s[i])
  }

  lemma {:induction false} TrimKeepsFirst(s: string)
    requires s != "" && !IsWhitespace(s[0])
    ensures Trim(s) != "" && Trim(s)[0] == s[0]
    decreases |s|
  {
    if IsWhitespace(s[|s| - 1]) {
      TrimKeepsFirst(s[..|s| - 1]);
    }
  }
}
