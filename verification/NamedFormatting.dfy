/** Substitution into translated templates: the braced dialect. */
module NamedFormatting {
  import opened Options
  import opened Basics
  import opened Texts

  /** Names with their values; of equal names the first counts. */
  type Bindings = seq<(Utf8, Utf8)>

  predicate NameCharacter(c: char) {
    'a' <= c <= 'z' || 'A' <= c <= 'Z' || '0' <= c <= '9' || c == '_'
  }

  function NameEnd(template: Utf8, from: nat): (end: nat)
    requires from <= |template|
    ensures from <= end <= |template|
    ensures forall i :: from <= i < end ==> NameCharacter(template[i])
    decreases |template| - from
  {
    if from < |template| && NameCharacter(template[from]) then NameEnd(template, from + 1) else from
  }

  /** The end of the name of the placeholder that the brace at `at` begins, if it begins one. */
  function PlaceholderAt(template: Utf8, at: nat): (end: Option<nat>)
    requires at < |template|
    ensures end.Some? ==> at + 1 < end.value < |template| && template[end.value] == '}'
  {
    var end := NameEnd(template, at + 1);
    if end == at + 1 || end == |template| || template[end] != '}' then None else Some(end)
  }

  function Lookup(args: Bindings, name: Utf8): (value: Option<Utf8>)
    ensures value.None? ==> forall i :: 0 <= i < |args| ==> args[i].0 != name
    ensures value.Some? ==> (name, value.value) in args
  {
    if args == [] then None else if args[0].0 == name then Some(args[0].1) else Lookup(args[1..], name)
  }

  datatype Token = Literal(c: char) | Placeholder(name: Utf8)

  function SourceOf(token: Token): Utf8 {
    match token
    case Literal(c) => [c]
    case Placeholder(name) => "{" + name + "}"
  }

  function TokenEnd(template: Utf8, at: nat): (end: nat)
    requires at < |template|
    ensures at < end <= |template|
  {
    if template[at] == '{' && PlaceholderAt(template, at).Some? then PlaceholderAt(template, at).value + 1 else at + 1
  }

  function TokenAt(template: Utf8, at: nat): Token
    requires at < |template|
  {
    if template[at] == '{' && PlaceholderAt(template, at).Some?
    then Placeholder(template[at + 1..PlaceholderAt(template, at).value])
    else Literal(template[at])
  }

  function TokensFrom(template: Utf8, at: nat): seq<Token>
    requires at <= |template|
    decreases |template| - at
  {
    if at == |template| then [] else [TokenAt(template, at)] + TokensFrom(template, TokenEnd(template, at))
  }

  /** A token takes up exactly its own text. */
  lemma SourceIsSlice(template: Utf8, at: nat)
    requires at < |template|
    ensures SourceOf(TokenAt(template, at)) == template[at..TokenEnd(template, at)]
  {
    var end := TokenEnd(template, at);
    if TokenAt(template, at).Placeholder? {
      assert template[at..end] == "{" + template[at + 1..end - 1] + "}";
    }
  }

  function Tokens(template: Utf8): seq<Token> {
    TokensFrom(template, 0)
  }

  function PrintedToken(token: Token, args: Bindings): Utf8 {
    match token
    case Literal(c) => [c]
    case Placeholder(name) =>
      match Lookup(args, name)
      case Some(value) => value
      case None => SourceOf(token)
  }

  function Printed(tokens: seq<Token>, args: Bindings): Utf8 {
    if tokens == [] then "" else PrintedToken(tokens[0], args) + Printed(tokens[1..], args)
  }

  // ------------------------------------------------------- the one pass over the template

  lemma PrintedOfCons(token: Token, rest: seq<Token>, args: Bindings)
    ensures Printed([token] + rest, args) == PrintedToken(token, args) + Printed(rest, args)
  {
    assert ([token] + rest)[1..] == rest;
  }

  lemma PrintedFrom(template: Utf8, at: nat, args: Bindings)
    requires at < |template|
    ensures Printed(TokensFrom(template, at), args)
            == PrintedToken(TokenAt(template, at), args) + Printed(TokensFrom(template, TokenEnd(template, at)), args)
  {
    hide TokenAt, TokenEnd;
    PrintedOfCons(TokenAt(template, at), TokensFrom(template, TokenEnd(template, at)), args);
  }

  /** Moves `template[at..end]` from what is left to print to the literal text before it. */
  lemma KeepLiteral(out: Utf8, template: Utf8, from: nat, at: nat, end: nat, tail: Utf8)
    requires from <= at <= end <= |template|
    ensures out + template[from..at] + (template[at..end] + tail) == out + template[from..end] + tail
  {
    assert template[from..end] == template[from..at] + template[at..end];
  }

  /** Finds the end of the name after the brace at `at`. */
  method ScanName(template: Utf8, at: nat) returns (cursor: nat)
    requires at < |template|
    ensures cursor == NameEnd(template, at + 1)
  {
    cursor := at + 1;
    while cursor < |template| && NameCharacter(template[cursor])
      invariant at + 1 <= cursor <= |template|
      invariant NameEnd(template, cursor) == NameEnd(template, at + 1)
    {
      cursor := cursor + 1;
    }
  }

  /** Reads the token at `at`: the value that takes its place, or none if it stays as it is. */
  method ReadToken(template: Utf8, at: nat, args: Bindings) returns (end: nat, value: Option<Utf8>)
    requires WellFormed(template) && at < |template|
    ensures at < end <= |template|
    ensures Printed(TokensFrom(template, at), args)
            == (if value.Some? then value.value else template[at..end]) + Printed(TokensFrom(template, end), args)
    ensures value.Some? ==> IsBoundary(template, at) && IsBoundary(template, end)
  {
    hide Printed, TokensFrom, WellFormed, NameEnd;
    PrintedFrom(template, at, args);
    KeptOrReplaced(template, at, args);
    if template[at] != '{' {
      return at + 1, None;
    }
    var cursor := ScanName(template, at);
    if cursor == at + 1 || cursor >= |template| || template[cursor] != '}' {
      return at + 1, None;
    }
    CutAroundAscii(template, at);
    CutAroundAscii(template, cursor);
    end := cursor + 1;
    value := Lookup(args, Slice(template, at + 1, cursor));
  }

  lemma KeptOrReplaced(template: Utf8, at: nat, args: Bindings)
    requires at < |template|
    ensures var bound := if template[at] == '{' && PlaceholderAt(template, at).Some?
                         then Lookup(args, template[at + 1..PlaceholderAt(template, at).value]) else None;
            PrintedToken(TokenAt(template, at), args)
            == if bound.Some? then bound.value else template[at..TokenEnd(template, at)]
  {
    SourceIsSlice(template, at);
  }

  method FormatNamed(template: Utf8, args: Bindings) returns (out: Utf8)
    requires WellFormed(template)
    ensures out == Printed(Tokens(template), args)
  {
    out := "";
    var literalStart, at := 0, 0;
    while at < |template|
      invariant literalStart <= at <= |template| && IsBoundary(template, literalStart)
      invariant out + template[literalStart..at] + Printed(TokensFrom(template, at), args)
                == Printed(Tokens(template), args)
    {
      hide Printed, TokensFrom;
      var end, value := ReadToken(template, at, args);
      ghost var tail := Printed(TokensFrom(template, end), args);
      if value.Some? {
        Regroup(out + template[literalStart..at], value.value, tail);
        out := out + Slice(template, literalStart, at);
        out := out + value.value;
        literalStart := end;
        assert out + template[literalStart..end] == out;
      } else {
        KeepLiteral(out, template, literalStart, at, end, tail);
      }
      at := end;
    }
    NothingLeft(template, args);
    out := out + Slice(template, literalStart, |template|);
  }

  lemma NothingLeft(template: Utf8, args: Bindings)
    ensures Printed(TokensFrom(template, |template|), args) == ""
  {
  }

  // ------------------------------------------------------- what the substitution promises

  /** `args` leave this token as it is written. */
  predicate LeavesAlone(token: Token, args: Bindings) {
    PrintedToken(token, args) == SourceOf(token)
  }

  lemma TokensUnfold(template: Utf8, at: nat)
    requires at < |template|
    ensures TokensFrom(template, at)
            == [TokenAt(template, at)] + TokensFrom(template, TokenEnd(template, at))
  {
    hide TokenAt, TokenEnd;
  }

  lemma HeadIsAlone(template: Utf8, at: nat, args: Bindings)
    requires at < |template| && forall token :: token in TokensFrom(template, at) ==> LeavesAlone(token, args)
    ensures PrintedToken(TokenAt(template, at), args) == SourceOf(TokenAt(template, at))
  {
    hide TokenAt, TokenEnd;
    TokensUnfold(template, at);
    assert LeavesAlone(TokenAt(template, at), args);
  }

  lemma TailIsAlone(template: Utf8, at: nat, args: Bindings)
    requires at < |template| && forall token :: token in TokensFrom(template, at) ==> LeavesAlone(token, args)
    ensures forall token :: token in TokensFrom(template, TokenEnd(template, at)) ==> LeavesAlone(token, args)
  {
    hide *;
    TokensUnfold(template, at);
  }

  lemma SlicesJoin(template: Utf8, at: nat, end: nat)
    requires at <= end <= |template|
    ensures template[at..] == template[at..end] + template[end..]
  {
  }

  lemma {:induction false} UntouchedFrom(template: Utf8, at: nat, args: Bindings)
    requires at <= |template|
    requires forall token :: token in TokensFrom(template, at) ==> LeavesAlone(token, args)
    ensures Printed(TokensFrom(template, at), args) == template[at..]
    decreases |template| - at
  {
    if at < |template| {
      hide *;
      HeadIsAlone(template, at, args);
      var end := TokenEnd(template, at);
      PrintedFrom(template, at, args);
      TailIsAlone(template, at, args);
      SourceIsSlice(template, at);
      UntouchedFrom(template, end, args);
      SlicesJoin(template, at, end);
    } else {
      assert template[at..] == "";
    }
  }

  /** Placeholders nobody binds, and those bound to themselves, survive byte for byte. */
  lemma UntouchedIsIdentity(template: Utf8, args: Bindings)
    requires forall token :: token in Tokens(template) ==> LeavesAlone(token, args)
    ensures Printed(Tokens(template), args) == template
  {
    UntouchedFrom(template, 0, args);
    assert template[0..] == template;
  }

  /** Binding every name to its own placeholder is the identity, on every template. */
  lemma SelfBindingIsIdentity(template: Utf8, args: Bindings)
    requires forall name, value :: (name, value) in args ==> value == "{" + name + "}"
    ensures Printed(Tokens(template), args) == template
  {
    forall token | token in Tokens(template) ensures LeavesAlone(token, args) {
      if token.Placeholder? && Lookup(args, token.name).Some? {
        assert (token.name, Lookup(args, token.name).value) in args;
      }
    }
    UntouchedIsIdentity(template, args);
  }

  /** Values are inserted as they are and never read again: a part of the output depends only on
      its own part of the template. */
  lemma {:induction false} PrintedInParts(first: seq<Token>, second: seq<Token>, args: Bindings)
    ensures Printed(first + second, args) == Printed(first, args) + Printed(second, args)
  {
    if first == [] {
      assert first + second == second;
    } else {
      assert first + second == [first[0]] + (first[1..] + second);
      PrintedOfCons(first[0], first[1..] + second, args);
      PrintedInParts(first[1..], second, args);
      Regroup(PrintedToken(first[0], args), Printed(first[1..], args), Printed(second, args));
    }
  }

  // ------------------------------------------------------- the order of the bindings

  /** No placeholder among `tokens` is bound to two different values. */
  ghost predicate OneValueEach(tokens: seq<Token>, args: Bindings) {
    forall name, value, other ::
      Placeholder(name) in tokens && (name, value) in args && (name, other) in args ==> value == other
  }

  /** All substitutions happen at once: the order the bindings are listed in, and how often, is
      irrelevant when each placeholder has one value. */
  lemma {:induction false} BindingOrderIsIrrelevant(tokens: seq<Token>, args: Bindings, others: Bindings)
    requires OneValueEach(tokens, args)
    requires forall binding :: binding in args <==> binding in others
    ensures Printed(tokens, args) == Printed(tokens, others)
  {
    if tokens != [] {
      BindingOrderIsIrrelevant(tokens[1..], args, others);
      if tokens[0].Placeholder? {
        var name := tokens[0].name;
        var found, other := Lookup(args, name), Lookup(others, name);
        assert found.Some? ==> (name, found.value) in others;
        assert other.Some? ==> (name, other.value) in args;
      }
    }
  }

  ghost predicate Reorders(args: Bindings, others: Bindings) {
    multiset(args) == multiset(others)
  }

  ghost predicate OrderNeverMatters(tokens: seq<Token>, args: Bindings) {
    forall others :: Reorders(args, others) ==> Printed(tokens, others) == Printed(tokens, args)
  }

  /** Bindings that agree on every name but `name`. */
  ghost predicate AgreeBut(args: Bindings, others: Bindings, name: Utf8) {
    && Lookup(args, name).Some? && Lookup(others, name).Some?
    && forall n :: n != name ==> Lookup(args, n) == Lookup(others, n)
  }

  lemma {:induction false} ShorterValuePrintsShorter(tokens: seq<Token>, args: Bindings, others: Bindings, name: Utf8)
    requires AgreeBut(args, others, name) && |Lookup(args, name).value| < |Lookup(others, name).value|
    ensures |Printed(tokens, args)| <= |Printed(tokens, others)|
    ensures Placeholder(name) in tokens ==> |Printed(tokens, args)| < |Printed(tokens, others)|
  {
    if tokens != [] {
      ShorterValuePrintsShorter(tokens[1..], args, others, name);
      assert Placeholder(name) in tokens ==> tokens[0] == Placeholder(name) || Placeholder(name) in tokens[1..];
    }
  }

  lemma OtherHead(head: Utf8, otherHead: Utf8, tail: Utf8, otherTail: Utf8)
    requires |head| == |otherHead| && (head != otherHead || tail != otherTail)
    ensures head + tail != otherHead + otherTail
  {
    assert (head + tail)[..|head|] == head && (head + tail)[|head|..] == tail;
    assert (otherHead + otherTail)[..|head|] == otherHead && (otherHead + otherTail)[|head|..] == otherTail;
  }

  /** Up to the first place where `name` is printed nothing differs, and there it does. */
  lemma {:induction false} OtherValuePrintsOther(tokens: seq<Token>, args: Bindings, others: Bindings, name: Utf8)
    requires AgreeBut(args, others, name) && Lookup(args, name) != Lookup(others, name)
    requires Placeholder(name) in tokens
    ensures Printed(tokens, args) != Printed(tokens, others)
  {
    var value, other := Lookup(args, name).value, Lookup(others, name).value;
    if |value| < |other| {
      ShorterValuePrintsShorter(tokens, args, others, name);
    } else if |value| > |other| {
      ShorterValuePrintsShorter(tokens, others, args, name);
    } else {
      if tokens[0] != Placeholder(name) {
        OtherValuePrintsOther(tokens[1..], args, others, name);
      }
      OtherHead(PrintedToken(tokens[0], args), PrintedToken(tokens[0], others),
                Printed(tokens[1..], args), Printed(tokens[1..], others));
    }
  }

  lemma {:induction false} LookupWithout(args: Bindings, i: nat, name: Utf8)
    requires i < |args| && args[i].0 != name
    ensures Lookup(args[..i] + args[i + 1..], name) == Lookup(args, name)
  {
    var rest := args[..i] + args[i + 1..];
    if i == 0 {
      assert rest == args[1..];
    } else {
      assert rest[1..] == args[1..][..i - 1] + args[1..][i..];
      assert args[1..][i - 1] == args[i];
      LookupWithout(args[1..], i - 1, name);
    }
  }

  /** The binding at `i` moved to the front is the one that counts; other names keep theirs. */
  lemma MovedToFront(args: Bindings, i: nat) returns (others: Bindings)
    requires i < |args|
    ensures Reorders(args, others) && Lookup(others, args[i].0) == Some(args[i].1)
    ensures forall n :: n != args[i].0 ==> Lookup(others, n) == Lookup(args, n)
  {
    var rest := args[..i] + args[i + 1..];
    others := [args[i]] + rest;
    assert args == args[..i] + [args[i]] + args[i + 1..];
    assert others[1..] == rest;
    forall n | n != args[i].0 ensures Lookup(others, n) == Lookup(args, n) {
      LookupWithout(args, i, n);
    }
  }

  /** The order of the bindings never matters exactly when no placeholder of the template is bound
      to two different values. */
  lemma OrderNeverMattersIff(tokens: seq<Token>, args: Bindings)
    ensures OrderNeverMatters(tokens, args) <==> OneValueEach(tokens, args)
  {
    if OneValueEach(tokens, args) {
      forall others | Reorders(args, others) ensures Printed(tokens, others) == Printed(tokens, args) {
        forall binding ensures binding in args <==> binding in others {
          assert binding in multiset(args) <==> binding in multiset(others);
        }
        BindingOrderIsIrrelevant(tokens, args, others);
      }
    } else {
      var name, value, other :| Placeholder(name) in tokens && (name, value) in args && (name, other) in args
                                && value != other;
      var i :| 0 <= i < |args| && args[i] == (name, value);
      var j :| 0 <= j < |args| && args[j] == (name, other);
      var one := MovedToFront(args, i);
      var two := MovedToFront(args, j);
      OtherValuePrintsOther(tokens, one, two, name);
      assert !OrderNeverMatters(tokens, args);
    }
  }

  lemma {:induction false} NameEndShifts(template: Utf8, from: nat, at: nat)
    requires from <= at <= |template|
    ensures NameEnd(template[from..], at - from) == NameEnd(template, at) - from
    decreases |template| - at
  {
    if at < |template| && NameCharacter(template[at]) {
      NameEndShifts(template, from, at + 1);
    }
  }

  lemma TokenShifts(template: Utf8, from: nat, at: nat)
    requires from <= at < |template|
    ensures TokenAt(template[from..], at - from) == TokenAt(template, at)
    ensures TokenEnd(template[from..], at - from) == TokenEnd(template, at) - from
  {
    hide NameEnd;
    var rest := template[from..];
    NameEndShifts(template, from, at + 1);
    var end := NameEnd(template, at + 1);
    assert end < |template| ==> rest[end - from] == template[end];
    assert rest[at - from] == template[at];
    assert rest[at - from + 1..end - from] == template[at + 1..end];
  }

  /** What follows a token is read as a template of its own. */
  lemma {:induction false} TokensShift(template: Utf8, from: nat, at: nat)
    requires from <= at <= |template|
    ensures TokensFrom(template[from..], at - from) == TokensFrom(template, at)
    decreases |template| - at
  {
    hide TokenAt, TokenEnd;
    if at < |template| {
      TokenShifts(template, from, at);
      TokensShift(template, from, TokenEnd(template, at));
    }
  }

  lemma {:induction false} NameEndsHere(template: Utf8, from: nat, end: nat)
    requires from <= end < |template| && !NameCharacter(template[end])
    requires forall i :: from <= i < end ==> NameCharacter(template[i])
    ensures NameEnd(template, from) == end
    decreases end - from
  {
    if from < end {
      NameEndsHere(template, from + 1, end);
    }
  }

  lemma LeadingPlaceholder(name: Utf8, rest: Utf8)
    requires name != "" && forall i :: 0 <= i < |name| ==> NameCharacter(name[i])
    ensures var template := "{" + name + "}" + rest;
            && TokenAt(template, 0) == Placeholder(name)
            && TokenEnd(template, 0) == |name| + 2
            && template[|name| + 2..] == rest
  {
    hide NameEnd;
    var template := "{" + name + "}" + rest;
    var close := |name| + 1;
    assert forall i :: 1 <= i < close ==> template[i] == name[i - 1];
    assert template[close] == '}';
    NameEndsHere(template, 1, close);
    assert template[1..close] == name;
  }

  /** ASCII letters and digits, and the underscore. */
  predicate WordCharacter(c: char) {
    || 0x30 <= c as int <= 0x39 || 0x41 <= c as int <= 0x5A || c as int == 0x5F || 0x61 <= c as int <= 0x7A
  }

  /** A brace that no name and closing brace follow is a character like any other. */
  lemma OtherBraceIsLiteral(name: Utf8, rest: Utf8, args: Bindings)
    requires forall i :: 0 <= i < |name| ==> WordCharacter(name[i])
    requires rest == "" || !WordCharacter(rest[0])
    requires name == "" || rest == "" || rest[0] != '}'
    ensures Printed(Tokens("{" + name + rest), args) == "{" + Printed(Tokens(name + rest), args)
  {
    hide *;
    var template := "{" + name + rest;
    BraceTokenIsLiteral(name, rest);
    PrintedFrom(template, 0, args);
    TokensShift(template, 1, 1);
    assert template[1..] == name + rest;
    LiteralPrintsItself('{', args);
    TokensFromStart(template);
    TokensFromStart(name + rest);
  }

  lemma BraceTokenIsLiteral(name: Utf8, rest: Utf8)
    requires forall i :: 0 <= i < |name| ==> WordCharacter(name[i])
    requires rest == "" || !WordCharacter(rest[0])
    requires name == "" || rest == "" || rest[0] != '}'
    ensures var template := "{" + name + rest; TokenAt(template, 0) == Literal('{') && TokenEnd(template, 0) == 1
  {
    hide NameEnd;
    var template := "{" + name + rest;
    assert forall i :: 0 <= i < |name| ==> template[i + 1] == name[i];
    assert rest != "" ==> template[1 + |name|] == rest[0];
    NameEndsBefore(template, 1, 1 + |name|);
  }

  lemma LiteralPrintsItself(c: char, args: Bindings)
    ensures PrintedToken(Literal(c), args) == [c]
  {
  }

  lemma TokensFromStart(template: Utf8)
    ensures Tokens(template) == TokensFrom(template, 0)
  {
  }

  lemma {:induction false} NameEndsBefore(template: Utf8, from: nat, end: nat)
    requires from <= end <= |template| && (end < |template| ==> !NameCharacter(template[end]))
    requires forall i :: from <= i < end ==> NameCharacter(template[i])
    ensures NameEnd(template, from) == end
    decreases end - from
  {
    if from < end {
      NameEndsBefore(template, from + 1, end);
    }
  }

  /** A bound placeholder is replaced by its value, as it is, and the rest is substituted as if it
      stood alone. */
  lemma PlaceholderIsReplaced(name: Utf8, rest: Utf8, args: Bindings)
    requires name != "" && forall i :: 0 <= i < |name| ==> WordCharacter(name[i])
    requires Lookup(args, name).Some?
    ensures Printed(Tokens("{" + name + "}" + rest), args) == Lookup(args, name).value + Printed(Tokens(rest), args)
  {
    hide Printed, TokensFrom, TokenAt, TokenEnd, Lookup;
    var template := "{" + name + "}" + rest;
    LeadingPlaceholder(name, rest);
    PrintedFrom(template, 0, args);
    TokensShift(template, |name| + 2, |name| + 2);
  }
}
