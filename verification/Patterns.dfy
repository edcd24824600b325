/** regex_from_pattern: name-space wildcards (section 4.2 of GFD-R-P.90) turned into the text of a
    regular expression. */
module Patterns {
  import opened Errors
  import opened Regex
  import opened Text

  // ------------------------------------------------------------------------ wildcard patterns

  datatype Item =
    | Star
    | AnyOne
    | Lit(c: char)
    | Bracket(negated: bool, body: string)
    | Choice(alternatives: seq<string>)

  /** The strings a pattern denotes: * any string, ? any character, [..] one of, [!..] none of the
      characters, {a,b} one of the strings, anything else itself. */
  predicate Denotes(items: seq<Item>, s: string)
    decreases |items|
  {
    if items == [] then s == ""
    else
      match items[0]
      case Star => exists k | 0 <= k <= |s| :: Denotes(items[1..], s[k..])
      case AnyOne => s != "" && Denotes(items[1..], s[1..])
      case Lit(c) => s != "" && s[0] == c && Denotes(items[1..], s[1..])
      case Bracket(negated, body) => s != "" && InBody(body, s[0]) != negated && Denotes(items[1..], s[1..])
      case Choice(alternatives) => exists a | a in alternatives :: a <= s && Denotes(items[1..], s[|a|..])
  }

  // ------------------------------------------------------------------- reading pattern text

  /** The pieces between commas, empty ones included. */
  function Pieces(s: string): seq<string>
    decreases |s|
  {
    var i := IndexFrom(s, ',', 0);
    if i == |s| then [s] else [s[..i]] + Pieces(s[i + 1..])
  }

  /** A comma follows at least one character of its alternative. */
  predicate NoEmptyBeforeComma(s: string) {
    forall j | 0 <= j < |s| && s[j] == ',' :: j > 0 && s[j - 1] != ','
  }

  /** The first item of a pattern text and the number of characters it takes. OffEnd: a '[' with nothing
      after it, where the scanner reads past the end of the text. */
  datatype First = First(item: Item, used: nat) | Malformed | OffEnd

  function FirstItem(p: string): (f: First)
    requires p != ""
    ensures f.First? ==> 0 < f.used <= |p|
  {
    if p[0] == '*' then First(Star, 1)
    else if p[0] == '?' then First(AnyOne, 1)
    else if p[0] == '[' then
      if |p| == 1 then OffEnd
      else if p[1] == ']' then Malformed
      else
        var close := IndexFrom(p, ']', 2);
        if close == |p| then Malformed
        else First(Bracket(p[1] == '!', p[if p[1] == '!' then 2 else 1..close]), close + 1)
    else if p[0] == '{' then
      var close := IndexFrom(p, '}', 1);
      if close == |p| || !NoEmptyBeforeComma(p[1..close]) then Malformed
      else First(Choice(Pieces(p[1..close])), close + 1)
    else if p[0] == '\\' then
      if |p| == 1 then Malformed else First(Lit(p[1]), 2)
    else First(Lit(p[0]), 1)
  }

  datatype Pattern = Pattern(items: seq<Item>) | Invalid | ReadsPastEnd

  function PatternOf(p: string): Pattern
    decreases |p|
  {
    if p == "" then Pattern([])
    else
      match FirstItem(p)
      case Malformed => Invalid
      case OffEnd => ReadsPastEnd
      case First(item, used) =>
        match PatternOf(p[used..])
        case Pattern(items) => Pattern([item] + items)
        case Invalid => Invalid
        case ReadsPastEnd => ReadsPastEnd
  }

  // --------------------------------------------------------------------------- emitted text

  function Emit(item: Item): string {
    match item
    case Star => ".*"
    case AnyOne => "."
    case Lit(c) => [c]
    case Bracket(negated, body) => (if negated then "[^" else "[") + body + "]"
    case Choice(alternatives) => "(" + Join(alternatives, '|') + ")"
  }

  function EmitAll(items: seq<Item>): string {
    if items == [] then "" else Emit(items[0]) + EmitAll(items[1..])
  }

  // --------------------------------------------------- the expression that means the pattern

  function TextRe(s: string): Re {
    if s == "" then Empty else Cat(Chr(s[0]), TextRe(s[1..]))
  }

  function AltsRe(alternatives: seq<string>): Re
    requires alternatives != []
  {
    if |alternatives| == 1 then TextRe(alternatives[0]) else Alt(TextRe(alternatives[0]), AltsRe(alternatives[1..]))
  }

  function ItemRe(item: Item): Re {
    match item
    case Star => Rep(Dot)
    case AnyOne => Dot
    case Lit(c) => Chr(c)
    case Bracket(negated, body) => Class(negated, body)
    case Choice(alternatives) => if alternatives == [] then Empty else AltsRe(alternatives)
  }

  function ItemsRe(items: seq<Item>): Re {
    if items == [] then Empty else Cat(ItemRe(items[0]), ItemsRe(items[1..]))
  }

  // ------------------------------------------------------------------ meaning of that expression

  lemma {:induction false} RepDotMatchesAll(s: string)
    ensures Matches(Rep(Dot), s)
  {
    if s != "" {
      RepDotMatchesAll(s[1..]);
      assert Matches(Dot, s[..1]);
    }
  }

  lemma {:induction false} TextReMatches(a: string, s: string)
    ensures Matches(TextRe(a), s) <==> s == a
  {
    if a != "" {
      if s != "" { TextReMatches(a[1..], s[1..]); }
      if s == a {
        assert s[..1] == [a[0]] && Matches(Chr(a[0]), s[..1]);
      }
      if Matches(TextRe(a), s) {
        var k :| 0 <= k <= |s| && Matches(Chr(a[0]), s[..k]) && Matches(TextRe(a[1..]), s[k..]);
        assert |s[..k]| == 1 && s[..k][0] == s[0];
        assert s == [s[0]] + s[1..] && a == [a[0]] + a[1..];
      }
    }
  }

  lemma {:induction false} AltsReMatches(alternatives: seq<string>, s: string)
    requires alternatives != []
    ensures Matches(AltsRe(alternatives), s) <==> s in alternatives
  {
    TextReMatches(alternatives[0], s);
    if |alternatives| > 1 {
      AltsReMatches(alternatives[1..], s);
      assert alternatives == [alternatives[0]] + alternatives[1..];
    }
  }

  predicate HasAlternatives(items: seq<Item>) {
    forall x | x in items && x.Choice? :: x.alternatives != []
  }

  /** The expression matches exactly the strings the pattern denotes. */
  lemma {:induction false} ItemsReMatches(items: seq<Item>, s: string)
    requires HasAlternatives(items)
    ensures Matches(ItemsRe(items), s) <==> Denotes(items, s)
    decreases |items|
  {
    if items != [] {
      var x, rest := items[0], items[1..];
      forall k | 0 <= k <= |s| ensures Matches(ItemsRe(rest), s[k..]) <==> Denotes(rest, s[k..]) {
        ItemsReMatches(rest, s[k..]);
      }
      assert Matches(ItemsRe(items), s) <==>
             exists k | 0 <= k <= |s| :: Matches(ItemRe(x), s[..k]) && Matches(ItemsRe(rest), s[k..]);
      match x
      case Star =>
        forall k | 0 <= k <= |s| ensures Matches(ItemRe(x), s[..k]) { RepDotMatchesAll(s[..k]); }
      case Choice(alternatives) =>
        assert x in items;
        ChoiceMatches(alternatives, rest, s);
      case _ =>
        OneCharItem(x, rest, s);
    }
  }

  lemma OneCharItem(x: Item, rest: seq<Item>, s: string)
    requires x.AnyOne? || x.Lit? || x.Bracket?
    requires forall k | 0 <= k <= |s| :: Matches(ItemsRe(rest), s[k..]) <==> Denotes(rest, s[k..])
    ensures (exists k | 0 <= k <= |s| :: Matches(ItemRe(x), s[..k]) && Matches(ItemsRe(rest), s[k..]))
       <==> s != "" && Matches(ItemRe(x), s[..1]) && Denotes(rest, s[1..])
    ensures s != "" ==> s[..1] == [s[0]]
  {
    if k :| 0 <= k <= |s| && Matches(ItemRe(x), s[..k]) && Matches(ItemsRe(rest), s[k..]) {
      assert |s[..k]| == 1;
      assert k == 1;
    }
  }

  lemma ChoiceMatches(alternatives: seq<string>, rest: seq<Item>, s: string)
    requires alternatives != []
    requires forall k | 0 <= k <= |s| :: Matches(ItemsRe(rest), s[k..]) <==> Denotes(rest, s[k..])
    ensures (exists k | 0 <= k <= |s| :: Matches(AltsRe(alternatives), s[..k]) && Matches(ItemsRe(rest), s[k..]))
       <==> exists a | a in alternatives :: a <= s && Denotes(rest, s[|a|..])
  {
    forall k | 0 <= k <= |s| ensures Matches(AltsRe(alternatives), s[..k]) <==> s[..k] in alternatives {
      AltsReMatches(alternatives, s[..k]);
    }
    if k :| 0 <= k <= |s| && Matches(AltsRe(alternatives), s[..k]) && Matches(ItemsRe(rest), s[k..]) {
      var a := s[..k];
      assert a in alternatives && a <= s && Denotes(rest, s[|a|..]);
    }
    if a :| a in alternatives && a <= s && Denotes(rest, s[|a|..]) {
      assert s[..|a|] == a;
      assert Matches(AltsRe(alternatives), s[..|a|]) && Matches(ItemsRe(rest), s[|a|..]);
    }
  }

  // ---------------------------------------------------------------- reading the emitted text

  /** No literal, set or alternative character is taken for regular-expression syntax. */
  predicate PlainItem(x: Item) {
    match x
    case Star => true
    case AnyOne => true
    case Lit(c) => !Meta(c)
    case Bracket(negated, body) => BodyOk(body) && (!negated ==> body[0] != '^')
    case Choice(alternatives) => alternatives != [] && forall a | a in alternatives :: PlainText(a)
  }

  predicate PlainText(a: string) {
    forall c | c in a :: !Meta(c)
  }

  predicate PlainItems(items: seq<Item>) {
    forall x | x in items :: PlainItem(x)
  }

  /** Where a sequence ends: the end of the text, or the end of an alternative or group. */
  predicate Ends(tail: string) {
    tail == "" || tail[0] == '|' || tail[0] == ')'
  }

  lemma {:induction false} ReadText(a: string, tail: string)
    requires PlainText(a) && Ends(tail)
    ensures ReadCat(a + tail) == Read(TextRe(a), tail)
  {
    if a == "" {
      assert a + tail == tail;
    } else {
      var s := a + tail;
      assert s[0] == a[0] && !Meta(s[0]) && s[1..] == a[1..] + tail;
      ReadText(a[1..], tail);
      assert s[1..] != "" ==> s[1..][0] != '*' by {
        if |a| > 1 { assert s[1..][0] == a[1] && !Meta(a[1]); }
      }
    }
  }

  lemma {:induction false} ReadAlts(alternatives: seq<string>, tail: string)
    requires alternatives != [] && forall a | a in alternatives :: PlainText(a)
    requires tail != "" && tail[0] == ')'
    ensures ReadAlt(Join(alternatives, '|') + tail) == Read(AltsRe(alternatives), tail)
    decreases |alternatives|
  {
    var a := alternatives[0];
    if |alternatives| == 1 {
      ReadText(a, tail);
    } else {
      var rest := Join(alternatives[1..], '|') + tail;
      assert Join(alternatives, '|') + tail == a + (['|'] + rest);
      ReadText(a, ['|'] + rest);
      assert (['|'] + rest)[1..] == rest;
      ReadAlts(alternatives[1..], tail);
    }
  }

  /** What one item emits is read back as one atom, starred for '*', whatever follows. */
  lemma ReadItem(x: Item, more: string)
    requires PlainItem(x) && !x.Star?
    ensures var s := Emit(x) + more;
            && s != "" && s[0] != '|' && s[0] != ')' && s[0] != '*'
            && ReadAtom(s) == Read(ItemRe(x), more)
  {
    var s := Emit(x) + more;
    match x
    case AnyOne => assert s[1..] == more;
    case Lit(c) => assert s[1..] == more;
    case Bracket(negated, body) => ReadBracket(negated, body, more);
    case Choice(alternatives) => ReadChoice(alternatives, more);
  }

  lemma ReadChoice(alternatives: seq<string>, more: string)
    requires PlainItem(Choice(alternatives))
    ensures var s := Emit(Choice(alternatives)) + more;
            s != "" && s[0] == '(' && ReadAtom(s) == Read(AltsRe(alternatives), more)
  {
    var s, body, tail := Emit(Choice(alternatives)) + more, Join(alternatives, '|'), ")" + more;
    assert s[0] == '(' && s[1..] == body + tail;
    ReadAlts(alternatives, tail);
    assert tail[1..] == more;
  }

  lemma ReadBracket(negated: bool, body: string, more: string)
    requires PlainItem(Bracket(negated, body))
    ensures var s := Emit(Bracket(negated, body)) + more;
            s != "" && s[0] == '[' && ReadAtom(s) == Read(Class(negated, body), more)
  {
    var s := Emit(Bracket(negated, body)) + more;
    var start := if negated then 2 else 1;
    BracketSlices(if negated then "[^" else "[", body, more, s, start, start + |body|);
    if !negated { assert s[1] == body[0]; }
  }

  lemma BracketSlices(head: string, body: string, more: string, s: string, start: nat, close: nat)
    requires s == head + body + "]" + more && ']' !in body && start == |head| && close == start + |body|
    ensures close < |s| && IndexFrom(s, ']', start) == close
    ensures s[start..close] == body && s[close + 1..] == more
  {
    assert (head + body)[..close] == s[..close];
    Middle(head, body, s, close);
    assert |head + body + "]"| == close + 1 && s[close + 1..] == more;
    IndexFromUnique(s, ']', start, close);
  }

  lemma Middle(head: string, body: string, s: string, close: nat)
    requires close == |head| + |body| <= |s| && s[..close] == head + body
    ensures s[|head|..close] == body && forall k | |head| <= k < close :: s[k] in body
  {
    forall k | |head| <= k < close ensures s[k] == body[k - |head|] { assert s[k] == s[..close][k]; }
  }

  lemma IndexFromUnique(s: string, c: char, from: nat, i: nat)
    requires from <= i < |s| && s[i] == c && forall k | from <= k < i :: s[k] != c
    ensures IndexFrom(s, c, from) == i
  {
  }

  lemma {:induction false} ReadItems(items: seq<Item>)
    requires PlainItems(items)
    ensures ReadCat(EmitAll(items)) == Read(ItemsRe(items), "")
    ensures EmitAll(items) != "" ==> EmitAll(items)[0] != '*'
    decreases |items|
  {
    if items != [] {
      var x, more := items[0], EmitAll(items[1..]);
      assert x in items;
      ReadItems(items[1..]);
      var s := EmitAll(items);
      if x.Star? {
        assert s[0] == '.' && s[1..] == "*" + more && s[1..][1..] == more;
      } else {
        ReadItem(x, more);
      }
    }
  }

  lemma {:induction false} OrdinaryText(a: string)
    ensures Ordinary(TextRe(a)) <==> PlainText(a)
  {
    if a != "" {
      OrdinaryText(a[1..]);
      assert a == [a[0]] + a[1..];
    }
  }

  lemma {:induction false} OrdinaryAlts(alternatives: seq<string>)
    requires alternatives != []
    ensures Ordinary(AltsRe(alternatives)) <==> forall a | a in alternatives :: PlainText(a)
  {
    OrdinaryText(alternatives[0]);
    if |alternatives| > 1 {
      OrdinaryAlts(alternatives[1..]);
      assert alternatives == [alternatives[0]] + alternatives[1..];
    }
  }

  lemma {:induction false} OrdinaryItems(items: seq<Item>)
    requires HasAlternatives(items)
    ensures Ordinary(ItemsRe(items)) <==> PlainItems(items)
    decreases |items|
  {
    if items != [] {
      OrdinaryItems(items[1..]);
      assert items == [items[0]] + items[1..];
      assert items[0] in items;
      if items[0].Choice? { OrdinaryAlts(items[0].alternatives); }
    }
  }

  /** The emitted text reads back as the expression that means the pattern exactly when no character of the
      pattern is taken for syntax. */
  lemma ReadsBackIff(items: seq<Item>)
    requires HasAlternatives(items)
    ensures ReadAll(EmitAll(items)) == Read(ItemsRe(items), "") <==> PlainItems(items)
  {
    if PlainItems(items) { ReadItems(items); }
    if ReadAll(EmitAll(items)) == Read(ItemsRe(items), "") {
      AltIsOrdinary(EmitAll(items));
      OrdinaryItems(items);
    }
  }

  lemma {:induction false} PatternHasAlternatives(p: string)
    requires PatternOf(p).Pattern?
    ensures HasAlternatives(PatternOf(p).items)
    decreases |p|
  {
    if p != "" {
      var f := FirstItem(p);
      PatternHasAlternatives(p[f.used..]);
    }
  }

  /** Pattern compilation preserves meaning: the emitted text, read as a regular expression, matches
      exactly the strings the pattern denotes. */
  lemma CompilationPreservesMeaning(p: string, s: string)
    requires PatternOf(p).Pattern? && PlainItems(PatternOf(p).items)
    ensures var r := ReadAll(EmitAll(PatternOf(p).items));
            r.Read? && (Matches(r.re, s) <==> Denotes(PatternOf(p).items, s))
  {
    PatternHasAlternatives(p);
    ReadsBackIff(PatternOf(p).items);
    ItemsReMatches(PatternOf(p).items, s);
  }

  /** Escapes and literals are copied raw, so meaning is not preserved for syntax characters: the pattern
      "." denotes "." only but its expression matches "x" too, and "\*" is not even an expression. */
  lemma RawCopiesChangeMeaning()
    ensures PatternOf(".") == Pattern([Lit('.')]) && !Denotes([Lit('.')], "x")
    ensures ReadAll(EmitAll([Lit('.')])).Read? && Matches(ReadAll(EmitAll([Lit('.')])).re, "x")
    ensures PatternOf("\\*") == Pattern([Lit('*')]) && ReadAll(EmitAll([Lit('*')])) == Unreadable
  {
    assert "."[1..] == "" && "\\*"[2..] == "";
    assert EmitAll([Lit('.')]) == "." && EmitAll([Lit('*')]) == "*";
    assert ReadCat(".") == Read(Cat(Dot, Empty), "");
    assert "x"[..1] == "x" && "x"[1..] == "";
    assert Matches(Dot, "x"[..1]) && Matches(Empty, "x"[1..]);
    assert Matches(Cat(Dot, Empty), "x");
  }

  // ------------------------------------------------------------------------------- the scanner

  lemma SetDone(q: string, n: nat, result: string)
    requires 2 <= n < |q| && q[0] == '[' && q[n] == ']' && q[1] != ']' && forall k | 2 <= k < n :: q[k] != ']'
    requires result == (if q[1] == '!' then "[" + "^" else "[" + [q[1]]) + q[2..n] + "]"
    ensures FirstItem(q).First? && FirstItem(q).used == n + 1 && result == Emit(FirstItem(q).item)
  {
    assert IndexFrom(q, ']', 2) == n;
    if q[1] != '!' {
      assert q[1..n] == [q[1]] + q[2..n];
      assert "[" + [q[1]] + q[2..n] + "]" == "[" + ([q[1]] + q[2..n]) + "]";
    }
  }

  /** regex_from_character_set, with the iterator at '['; on success it stops at the closing ']'. */
  method RegexFromCharacterSet(p: string, it0: nat) returns (r: Result<string>, it: nat)
    requires it0 + 1 < |p| && p[it0] == '['
    ensures match FirstItem(p[it0..])
            case First(item, used) => r == Ok(Emit(item)) && it + 1 == it0 + used
            case _ => r == Err(NO_SUCCESS)
  {
    ghost var q := p[it0..];
    var result := "[";
    it := it0 + 1;
    assert q[1] == p[it];
    if p[it] == '!' {
      result := result + "^";
    } else if p[it] == ']' {
      return Err(NO_SUCCESS), it;
    } else {
      result := result + [p[it]];
    }
    ghost var head := result;
    it := it + 1;
    while it != |p| && p[it] != ']'
      invariant it0 + 2 <= it <= |p|
      invariant forall k | 2 <= k < it - it0 :: q[k] != ']'
      invariant result == head + p[it0 + 2..it]
    {
      assert q[it - it0] == p[it];
      result := result + [p[it]];
      it := it + 1;
    }
    assert it < |p| ==> q[it - it0] == p[it];
    assert IndexFrom(q, ']', 2) == it - it0;
    if it == |p| { return Err(NO_SUCCESS), it; }
    result := result + "]";
    assert q[2..it - it0] == p[it0 + 2..it];
    SetDone(q, it - it0, result);
    return Ok(result), it;
  }

  /** The text of a choice: commas become bars. */
  function Barred(s: string): string {
    if s == "" then "" else [if s[0] == ',' then '|' else s[0]] + Barred(s[1..])
  }

  lemma {:induction false} BarredConcat(a: string, b: string)
    ensures Barred(a + b) == Barred(a) + Barred(b)
  {
    if a == "" {
      assert a + b == b;
    } else {
      assert (a + b)[1..] == a[1..] + b;
      BarredConcat(a[1..], b);
    }
  }

  lemma {:induction false} BarredPlain(s: string)
    requires ',' !in s
    ensures Barred(s) == s
  {
    if s != "" { BarredPlain(s[1..]); }
  }

  lemma BarredSplit(s: string, i: nat)
    requires i < |s| && s[i] == ',' && ',' !in s[..i]
    ensures Barred(s) == s[..i] + ['|'] + Barred(s[i + 1..])
  {
    BarredPlain(s[..i]);
    assert s == s[..i] + s[i..];
    BarredConcat(s[..i], s[i..]);
    BarredComma(s[i..], s[i + 1..]);
    Associative(s[..i], ['|'], Barred(s[i + 1..]));
  }

  lemma BarredComma(s: string, rest: string)
    requires s != "" && s[0] == ',' && s[1..] == rest
    ensures Barred(s) == ['|'] + Barred(rest)
  {
  }

  lemma JoinCons(a: string, rest: seq<string>, sep: char)
    requires rest != []
    ensures Join([a] + rest, sep) == a + [sep] + Join(rest, sep)
  {
    assert ([a] + rest)[1..] == rest;
  }

  lemma {:induction false} BarredIsJoin(s: string)
    ensures Barred(s) == Join(Pieces(s), '|')
    decreases |s|
  {
    var i := IndexFrom(s, ',', 0);
    if i == |s| {
      BarredPlain(s);
    } else {
      BarredIsJoin(s[i + 1..]);
      BarredSplit(s, i);
      JoinCons(s[..i], Pieces(s[i + 1..]), '|');
    }
  }

  predicate EndsInside(s: string) {
    s != "" && s[|s| - 1] != ','
  }

  lemma NoEmptyExtend(s: string, c: char)
    requires NoEmptyBeforeComma(s)
    ensures NoEmptyBeforeComma(s + [c]) <==> (c == ',' ==> EndsInside(s))
  {
    var t := s + [c];
    assert forall j | 0 <= j < |s| :: t[j] == s[j];
    assert t[|s|] == c;
  }

  /** The scanner has read s and written result. */
  predicate ChoiceRead(s: string, result: string, hasOne: bool) {
    result == "(" + Barred(s) && (hasOne <==> EndsInside(s)) && NoEmptyBeforeComma(s)
  }

  lemma ChoiceTurn(s: string, result: string, hasOne: bool, c: char)
    requires ChoiceRead(s, result, hasOne) && (c == ',' ==> hasOne)
    ensures ChoiceRead(s + [c], result + (if c == ',' then "|" else [c]), c != ',')
  {
    NoEmptyExtend(s, c);
    BarredConcat(s, [c]);
  }

  lemma ChoiceFails(q: string, n: nat)
    requires 1 <= n < |q| && q[n] == ',' && q[0] == '{' && (forall k | 1 <= k < n :: q[k] != '}')
    requires !EndsInside(q[1..n])
    ensures FirstItem(q) == Malformed
  {
    var close := IndexFrom(q, '}', 1);
    if close < |q| {
      assert n < close;
      var body := q[1..close];
      assert body[n - 1] == ',';
      if n > 1 { assert q[1..n][n - 2] == body[n - 2]; }
      assert !NoEmptyBeforeComma(body);
    }
  }

  lemma ChoiceDone(q: string, n: nat, result: string, hasOne: bool)
    requires 1 <= n < |q| && q[n] == '}' && q[0] == '{' && (forall k | 1 <= k < n :: q[k] != '}')
    requires ChoiceRead(q[1..n], result, hasOne)
    ensures FirstItem(q) == First(Choice(Pieces(q[1..n])), n + 1) && result + ")" == Emit(Choice(Pieces(q[1..n])))
  {
    assert IndexFrom(q, '}', 1) == n;
    BarredIsJoin(q[1..n]);
  }

  /** regex_from_string_choice, with the iterator at '{'; on success it stops at the closing '}'. */
  method RegexFromStringChoice(p: string, it0: nat) returns (r: Result<string>, it: nat)
    requires it0 < |p| && p[it0] == '{'
    ensures match FirstItem(p[it0..])
            case First(item, used) => r == Ok(Emit(item)) && it + 1 == it0 + used
            case _ => r == Err(NO_SUCCESS)
  {
    ghost var q := p[it0..];
    var result := "(";
    var hasOne := false;
    it := it0 + 1;
    assert q[1..1] == "";
    while it != |p| && p[it] != '}'
      invariant it0 + 1 <= it <= |p|
      invariant forall k | 1 <= k < it - it0 :: q[k] != '}'
      invariant ChoiceRead(q[1..it - it0], result, hasOne)
    {
      assert q[it - it0] == p[it];
      assert q[1..it + 1 - it0] == q[1..it - it0] + [p[it]];
      if p[it] == ',' && !hasOne {
        ChoiceFails(q, it - it0);
        return Err(NO_SUCCESS), it;
      }
      ChoiceTurn(q[1..it - it0], result, hasOne, p[it]);
      if p[it] == ',' {
        result := result + "|";
        hasOne := false;
      } else {
        result := result + [p[it]];
        hasOne := true;
      }
      it := it + 1;
    }
    if it == |p| {
      assert IndexFrom(q, '}', 1) == |q|;
      return Err(NO_SUCCESS), it;
    }
    assert q[it - it0] == p[it];
    ChoiceDone(q, it - it0, result, hasOne);
    return Ok(result + ")"), it;
  }

  lemma EmitAllCons(x: Item, items: seq<Item>)
    ensures EmitAll([x] + items) == Emit(x) + EmitAll(items)
  {
    assert ([x] + items)[1..] == items;
  }

  /** The scanner has written result for the text before it. */
  predicate Scanned(pattern: string, it: nat, result: string) {
    && it <= |pattern|
    && match PatternOf(pattern[it..])
       case Pattern(items) => PatternOf(pattern).Pattern? &&
           EmitAll(PatternOf(pattern).items) == result + EmitAll(items)
       case Invalid => PatternOf(pattern) == Invalid
       case ReadsPastEnd => false
  }

  /** What the character at the scanner says about the next item. */
  lemma FirstAt(pattern: string, it: nat)
    requires it < |pattern|
    ensures var c, f := pattern[it], FirstItem(pattern[it..]);
            && (c == '*' ==> f == First(Star, 1))
            && (c == '?' ==> f == First(AnyOne, 1))
            && (c == '[' && it + 1 == |pattern| ==> f == OffEnd)
            && (c == '\\' ==> f == if it + 1 == |pattern| then Malformed else First(Lit(pattern[it + 1]), 2))
            && (c !in "*?[{\\" ==> f == First(Lit(c), 1))
  {
  }

  lemma NotOffEnd(pattern: string, it: nat, result: string)
    requires Scanned(pattern, it, result) && it < |pattern|
    ensures !FirstItem(pattern[it..]).OffEnd?
    ensures FirstItem(pattern[it..]).Malformed? ==> PatternOf(pattern) == Invalid
  {
  }

  /** One turn of the loop: the next item's text is written and its characters are consumed. */
  lemma ScanTurn(pattern: string, it: nat, result: string, next: nat, written: string)
    requires Scanned(pattern, it, result) && it < |pattern|
    requires var f := FirstItem(pattern[it..]); f.First? && next == it + f.used && written == result + Emit(f.item)
    ensures Scanned(pattern, next, written)
  {
    var q := pattern[it..];
    var f := FirstItem(q);
    assert q[f.used..] == pattern[next..];
    var rest := PatternOf(q[f.used..]);
    if rest.Pattern? {
      EmitAllCons(f.item, rest.items);
      Associative(result, Emit(f.item), EmitAll(rest.items));
    }
  }

  lemma ScanStart(pattern: string)
    requires PatternOf(pattern) != ReadsPastEnd
    ensures Scanned(pattern, 0, "")
  {
    assert pattern[0..] == pattern;
    if PatternOf(pattern).Pattern? {
      assert "" + EmitAll(PatternOf(pattern).items) == EmitAll(PatternOf(pattern).items);
    }
  }

  lemma ScanEnd(pattern: string, result: string)
    requires Scanned(pattern, |pattern|, result)
    ensures PatternOf(pattern).Pattern? && EmitAll(PatternOf(pattern).items) == result
  {
    assert pattern[|pattern|..] == "" && result + "" == result;
  }

  /** regex_from_pattern. */
  method RegexFromPattern(pattern: string) returns (r: Result<string>)
    requires PatternOf(pattern) != ReadsPastEnd
    ensures match PatternOf(pattern)
            case Pattern(items) => r == Ok(EmitAll(items))
            case _ => r == Err(NO_SUCCESS)
  {
    var result := "";
    var it: nat := 0;
    ScanStart(pattern);
    while it != |pattern|
      invariant Scanned(pattern, it, result)
      decreases |pattern| - it
    {
      ghost var start, was := it, result;
      NotOffEnd(pattern, it, result);
      FirstAt(pattern, it);
      var c := pattern[it];
      if c == '*' {
        result := result + ".*";
      } else if c == '?' {
        result := result + ".";
      } else if c == '[' {
        var set_;
        set_, it := RegexFromCharacterSet(pattern, it);
        if set_.Err? { return set_; }
        result := result + set_.value;
      } else if c == '{' {
        var choice;
        choice, it := RegexFromStringChoice(pattern, it);
        if choice.Err? { return choice; }
        result := result + choice.value;
      } else if c == '\\' {
        it := it + 1;
        if it == |pattern| { return Err(NO_SUCCESS); }
        result := result + [pattern[it]];
      } else {
        result := result + [c];
      }
      it := it + 1;
      ScanTurn(pattern, start, was, it, result);
    }
    ScanEnd(pattern, result);
    return Ok(result);
  }
}
