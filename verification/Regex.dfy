/** The part of regular expressions that the emitted texts use: syntax, reading, matching. As in Boost.Regex
    with default flags, the dot stands for any character, newline included. */
module Regex {
  import opened Text

  // ------------------------------------------------------------------------- bracket bodies

  /** The characters a bracket body stands for: single characters and ranges x-y. */
  predicate InBody(body: string, c: char) {
    if body == "" then false
    else if |body| >= 3 && body[1] == '-' then body[0] <= c <= body[2] || InBody(body[3..], c)
    else c == body[0] || InBody(body[1..], c)
  }

  /** A bracket body without escapes, character classes or reversed ranges. */
  predicate BodyOk(body: string) {
    body != "" && '\\' !in body && '[' !in body && ']' !in body && RangesOk(body)
  }

  predicate RangesOk(body: string) {
    if body == "" then true
    else if |body| >= 3 && body[1] == '-' then body[0] <= body[2] && RangesOk(body[3..])
    else RangesOk(body[1..])
  }

  /** A body without a dash stands for its characters ... */
  lemma {:induction false} InPlainBody(body: string, c: char)
    requires '-' !in body
    ensures InBody(body, c) <==> c in body
    ensures BodyOk(body) <==> body != "" && forall x | x in body :: x != '\\' && x != '[' && x != ']'
  {
    PlainRangesOk(body);
    if body != "" {
      InPlainBody(body[1..], c);
      assert body == [body[0]] + body[1..];
    }
  }

  lemma {:induction false} PlainRangesOk(body: string)
    requires '-' !in body
    ensures RangesOk(body)
  {
    if body != "" { PlainRangesOk(body[1..]); }
  }

  /** ... a range at its front for the characters in between, and a single character for itself. */
  lemma InBodyByCases(x: char, y: char, rest: string, c: char)
    ensures InBody([x, '-', y] + rest, c) <==> x <= c <= y || InBody(rest, c)
    ensures RangesOk([x, '-', y] + rest) <==> x <= y && RangesOk(rest)
    ensures |rest| < 2 || rest[0] != '-' ==> (InBody([x] + rest, c) <==> c == x || InBody(rest, c))
    ensures |rest| < 2 || rest[0] != '-' ==> (RangesOk([x] + rest) <==> RangesOk(rest))
  {
    assert ([x, '-', y] + rest)[3..] == rest && ([x] + rest)[1..] == rest;
  }

  // ----------------------------------------------------------------------- expressions

  datatype Re =
    | Empty
    | Chr(c: char)
    | Dot
    | Class(negated: bool, body: string)
    | Cat(left: Re, right: Re)
    | Alt(left: Re, right: Re)
    | Rep(re: Re)

  /** The whole of s matches. */
  predicate Matches(re: Re, s: string)
    decreases re, |s|
  {
    match re
    case Empty => s == ""
    case Chr(c) => s == [c]
    case Dot => |s| == 1
    case Class(negated, body) => |s| == 1 && InBody(body, s[0]) != negated
    case Cat(l, r) => exists k | 0 <= k <= |s| :: Matches(l, s[..k]) && Matches(r, s[k..])
    case Alt(l, r) => Matches(l, s) || Matches(r, s)
    case Rep(e) => s == "" || exists k | 0 < k <= |s| :: Matches(e, s[..k]) && Matches(re, s[k..])
  }

  // ---------------------------------------------------------------------------- reading

  /** The syntax characters of a pattern outside brackets; there a lone ']' stands for itself. */
  predicate Meta(c: char) {
    c in "^$\\.*+?()[{}|"
  }

  datatype Read = Read(re: Re, rest: string) | Unreadable

  /** alternative ('|' alternative)* */
  function ReadAlt(s: string): (r: Read)
    ensures r.Read? ==> |r.rest| <= |s|
    decreases |s|, 2
  {
    match ReadCat(s)
    case Unreadable => Unreadable
    case Read(l, rest) =>
      if rest == "" || rest[0] != '|' then Read(l, rest)
      else match ReadAlt(rest[1..]) case Unreadable => Unreadable case Read(r, rest') => Read(Alt(l, r), rest')
  }

  /** (atom '*'?)* */
  function ReadCat(s: string): (r: Read)
    ensures r.Read? ==> |r.rest| <= |s|
    decreases |s|, 1
  {
    if s == "" || s[0] == '|' || s[0] == ')' then Read(Empty, s)
    else
      match ReadAtom(s)
      case Unreadable => Unreadable
      case Read(a, rest) =>
        var starred := rest != "" && rest[0] == '*';
        match ReadCat(if starred then rest[1..] else rest)
        case Unreadable => Unreadable
        case Read(more, rest') => Read(Cat(if starred then Rep(a) else a, more), rest')
  }

  /** A group, a bracket expression, a dot or an ordinary character. */
  function ReadAtom(s: string): (r: Read)
    requires s != ""
    ensures r.Read? ==> |r.rest| < |s|
    decreases |s|, 0
  {
    if s[0] == '(' then
      match ReadAlt(s[1..])
      case Unreadable => Unreadable
      case Read(re, rest) => if rest == "" || rest[0] != ')' then Unreadable else Read(re, rest[1..])
    else if s[0] == '[' then
      var negated := |s| > 1 && s[1] == '^';
      var start := if negated then 2 else 1;
      var close := IndexFrom(s, ']', start);
      if close == |s| || !BodyOk(s[start..close]) then Unreadable
      else Read(Class(negated, s[start..close]), s[close + 1..])
    else if s[0] == '.' then Read(Dot, s[1..])
    else if Meta(s[0]) then Unreadable
    else Read(Chr(s[0]), s[1..])
  }

  /** The expression a whole text denotes. */
  function ReadAll(s: string): Read {
    match ReadAlt(s)
    case Unreadable => Unreadable
    case Read(re, rest) => if rest == "" then Read(re, "") else Unreadable
  }

  /** The characters that, alone, stand for themselves. */
  lemma ReadsAsItselfIff(c: char)
    ensures ReadAll([c]) == Read(Cat(Chr(c), Empty), "") <==>
            c != '^' && c != '$' && c != '\\' && c != '.' && c != '*' && c != '+' && c != '?' &&
            c != '(' && c != ')' && c != '[' && c != '{' && c != '}' && c != '|'
  {
    assert [c][1..] == "";
    assert ReadCat("") == Read(Empty, "");
    if !Meta(c) {
      assert ReadAtom([c]) == Read(Chr(c), "");
      assert ReadCat([c]) == Read(Cat(Chr(c), Empty), "");
      assert ReadAlt([c]) == Read(Cat(Chr(c), Empty), "");
    } else if ReadAll([c]).Read? {
      AltIsOrdinary([c]);
    }
  }

  // ------------------------------------------------------------- what reading can produce

  /** Only ordinary characters stand for themselves, bracket bodies are well formed, and a bracket that is
      not negated does not begin with '^'. */
  predicate Ordinary(re: Re) {
    match re
    case Empty => true
    case Chr(c) => !Meta(c)
    case Dot => true
    case Class(negated, body) => BodyOk(body) && (!negated ==> body[0] != '^')
    case Cat(l, r) => Ordinary(l) && Ordinary(r)
    case Alt(l, r) => Ordinary(l) && Ordinary(r)
    case Rep(e) => Ordinary(e)
  }

  lemma {:induction false} AltIsOrdinary(s: string)
    requires ReadAlt(s).Read?
    ensures Ordinary(ReadAlt(s).re)
    decreases |s|, 2
  {
    CatIsOrdinary(s);
    var rest := ReadCat(s).rest;
    if rest != "" && rest[0] == '|' { AltIsOrdinary(rest[1..]); }
  }

  lemma {:induction false} CatIsOrdinary(s: string)
    requires ReadCat(s).Read?
    ensures Ordinary(ReadCat(s).re)
    decreases |s|, 1
  {
    if s != "" && s[0] != '|' && s[0] != ')' {
      AtomIsOrdinary(s);
      var rest := ReadAtom(s).rest;
      CatIsOrdinary(if rest != "" && rest[0] == '*' then rest[1..] else rest);
    }
  }

  lemma {:induction false} AtomIsOrdinary(s: string)
    requires s != "" && ReadAtom(s).Read?
    ensures Ordinary(ReadAtom(s).re)
    decreases |s|, 0
  {
    if s[0] == '(' { AltIsOrdinary(s[1..]); }
  }
}
