/** unescape (logging configuration): a decoder that copies chunks between backslashes. */
module Unescaping {
  import opened Text

  const BACKSLASH: char := '\\'

  predicate Escapable(c: char) {
    c == BACKSLASH || c == '"' || c == '?'
  }

  /** The decoder, one character at a time: \\ \" \? stand for the second character, \n for a newline,
      any other backslash for itself. */
  function Decode(s: string): string {
    if |s| < 2 then s
    else if s[0] != BACKSLASH then [s[0]] + Decode(s[1..])
    else if Escapable(s[1]) then [s[1]] + Decode(s[2..])
    else if s[1] == 'n' then "\n" + Decode(s[2..])
    else [s[0]] + Decode(s[1..])
  }

  function Escape(s: string): string {
    if s == "" then ""
    else
      (if Escapable(s[0]) then [BACKSLASH, s[0]] else if s[0] == '\n' then [BACKSLASH, 'n'] else [s[0]])
      + Escape(s[1..])
  }

  lemma {:induction false} DecodeEscape(s: string)
    ensures Decode(Escape(s)) == s
  {
    if s != "" {
      DecodeEscape(s[1..]);
      var e, rest := Escape(s), Escape(s[1..]);
      if Escapable(s[0]) || s[0] == '\n' {
        assert e[2..] == rest;
      } else {
        assert e[0] == s[0] && e[1..] == rest;
        if rest == "" { assert s[1..] == ""; }
      }
      assert s == [s[0]] + s[1..];
    }
  }

  /** The six things that can stand at the front of a text, on the characters themselves. */
  lemma DecodeByCases(c: char, rest: string)
    ensures Decode("") == ""
    ensures c != '\\' ==> Decode([c] + rest) == [c] + Decode(rest)
    ensures Decode(['\\', '\\'] + rest) == ['\\'] + Decode(rest)
    ensures Decode(['\\', '"'] + rest) == ['"'] + Decode(rest)
    ensures Decode(['\\', '?'] + rest) == ['?'] + Decode(rest)
    ensures Decode(['\\', 'n'] + rest) == ['\n'] + Decode(rest)
    ensures c != '\\' && c != '"' && c != '?' && c != 'n' ==> Decode(['\\', c] + rest) == ['\\', c] + Decode(rest)
    ensures Decode("\\") == "\\"
  {
    assert ([c] + rest)[1..] == rest;
    forall d: char ensures (['\\', d] + rest)[2..] == rest && (['\\', d] + rest)[1..] == [d] + rest { }
    assert ([c] + rest)[1..] == rest;
    if c != '\\' && rest == "" { assert Decode([c]) == [c]; }
  }

  /** A backslash that means something is followed by one of four characters. */
  predicate HasEscape(s: string) {
    exists i | 0 <= i < |s| :: EscapeAt(s, i)
  }

  lemma {:induction false} DecodeLength(s: string)
    ensures |Decode(s)| <= |s|
  {
    if |s| >= 2 {
      if s[0] == BACKSLASH && (Escapable(s[1]) || s[1] == 'n') { DecodeLength(s[2..]); } else { DecodeLength(s[1..]); }
    }
  }

  predicate EscapeAt(s: string, i: nat) {
    i + 1 < |s| && s[i] == BACKSLASH && (Escapable(s[i + 1]) || s[i + 1] == 'n')
  }

  lemma HasEscapeStep(s: string)
    requires s != ""
    ensures HasEscape(s) <==> EscapeAt(s, 0) || HasEscape(s[1..])
  {
    if i: nat :| EscapeAt(s, i) {
      if i > 0 { assert EscapeAt(s[1..], i - 1); }
    }
    if i: nat :| EscapeAt(s[1..], i) { assert EscapeAt(s, i + 1); }
  }

  /** Decoding leaves a text alone exactly when it holds no escape sequence. */
  lemma {:induction false} DecodeIsIdentityIff(s: string)
    ensures Decode(s) == s <==> !HasEscape(s)
  {
    if |s| >= 2 {
      HasEscapeStep(s);
      if EscapeAt(s, 0) {
        DecodeLength(s[2..]);
      } else {
        DecodeIsIdentityIff(s[1..]);
        assert s == [s[0]] + s[1..];
      }
    }
  }

  /** Text without backslashes decodes to itself. */
  lemma {:induction false} DecodePlain(value: string, a: nat, b: nat)
    requires a <= b <= |value| && forall k | a <= k < b :: value[k] != BACKSLASH
    ensures Decode(value[a..]) == value[a..b] + Decode(value[b..])
    decreases b - a
  {
    if a == b {
      assert value[a..b] == "";
    } else {
      DecodePlain(value, a + 1, b);
      DecodeFirst(value, a);
      assert value[a..b] == [value[a]] + value[a + 1..b];
      assert value[a..b] + Decode(value[b..]) == [value[a]] + (value[a + 1..b] + Decode(value[b..]));
    }
  }

  lemma DecodeFirst(value: string, a: nat)
    requires a < |value| && value[a] != BACKSLASH
    ensures Decode(value[a..]) == [value[a]] + Decode(value[a + 1..])
  {
    var s := value[a..];
    assert s[0] == value[a] && s[1..] == value[a + 1..];
    if |s| < 2 { assert s == [s[0]] && s[1..] == ""; }
  }

  /** std::string's operator[] gives '\0' at the end. */
  function CharAt(s: string, i: nat): char {
    if i < |s| then s[i] else '\0'
  }

  /** What one turn of the loop consumes at a backslash. */
  lemma DecodeAt(value: string, p: nat)
    requires p < |value| && value[p] == BACKSLASH
    ensures var c := CharAt(value, p + 1);
            && (Escapable(c) ==> p + 2 <= |value| && Decode(value[p..]) == [c] + Decode(value[p + 2..]))
            && (c == 'n' ==> p + 2 <= |value| && Decode(value[p..]) == "\n" + Decode(value[p + 2..]))
            && (!Escapable(c) && c != 'n' ==> Decode(value[p..]) == [BACKSLASH] + Decode(value[p + 1..]))
  {
    var s := value[p..];
    assert s[0] == BACKSLASH && s[1..] == value[p + 1..];
    if p + 1 < |value| {
      assert s[1] == value[p + 1] && s[2..] == value[p + 2..];
    } else {
      assert s == [BACKSLASH] && value[p + 1..] == "";
    }
  }

  /** What one turn of the loop appends: the piece read at the backslash, and the plain text up to the
      next one. */
  lemma DecodeTurn(value: string, r: string, p: nat, piece: string, m: nat, q: nat)
    requires p <= m <= q <= |value| && Decode(value) == r + Decode(value[p..])
    requires Decode(value[p..]) == piece + Decode(value[m..])
    requires forall k | m <= k < q :: value[k] != BACKSLASH
    ensures Decode(value) == (r + piece) + value[m..q] + Decode(value[q..])
  {
    DecodePlain(value, m, q);
    Associative(r, piece, Decode(value[m..]));
    Associative(r + piece, value[m..q], Decode(value[q..]));
  }

  /** A character in front of a slice of the text it stands before. */
  lemma SliceCons(value: string, p: nat, m: nat, q: nat)
    requires p < m <= q <= |value| && m == p + 1
    ensures [value[p]] + value[m..q] == value[p..q]
  {
  }

  /** The invariant of the loop: what is decoded so far, the plain text up to the next backslash, the rest. */
  predicate Copied(value: string, result: string, pos: nat, pos1: nat) {
    && pos <= pos1 <= |value|
    && Decode(value) == result + value[pos..pos1] + Decode(value[pos1..])
  }

  lemma CopiedFirst(value: string, pos1: nat)
    requires pos1 == IndexFrom(value, BACKSLASH, 0)
    ensures Copied(value, "", 0, pos1)
  {
    assert value[0..] == value;
    DecodePlain(value, 0, pos1);
    EmptyBefore(value[0..pos1], Decode(value[pos1..]));
  }

  lemma EmptyBefore(a: string, b: string)
    ensures "" + a + b == a + b
  {
  }

  lemma CopiedAll(value: string, result: string, pos: nat)
    requires Copied(value, result, pos, |value|)
    ensures Decode(value) == result + value[pos..]
  {
    assert value[pos..|value|] == value[pos..] && value[|value|..] == "";
  }

  lemma EscapedTurn(value: string, result: string, pos: nat, p: nat, written: string, p1: nat, m: nat, q: nat)
    requires Copied(value, result, pos, p) && written == result + value[pos..p]
    requires p1 == p + 1 && m == p + 2 <= q <= |value| && value[p] == BACKSLASH && Escapable(value[p1])
    requires forall k | m <= k < q :: value[k] != BACKSLASH
    ensures Copied(value, written, p1, q)
  {
    DecodeAt(value, p);
    DecodeTurn(value, written, p, [value[p1]], m, q);
    Associative(written, [value[p1]], value[m..q]);
    SliceCons(value, p1, m, q);
  }

  lemma NewlineTurn(value: string, result: string, pos: nat, p: nat, written: string, p1: nat, m: nat, q: nat)
    requires Copied(value, result, pos, p) && written == result + value[pos..p] + "\n"
    requires p1 == p + 1 <= q <= |value| && m == p + 2 && value[p] == BACKSLASH && CharAt(value, p1) == 'n'
    requires forall k | p1 <= k < q :: value[k] != BACKSLASH
    requires q < |value| ==> value[q] == BACKSLASH
    ensures Copied(value, written, m, q)
  {
    DecodeAt(value, p);
    DecodeTurn(value, result + value[pos..p], p, "\n", m, q);
  }

  lemma OtherTurn(value: string, result: string, pos: nat, p: nat, written: string, p1: nat, q: nat)
    requires p1 == p + 1 <= q <= |value| && value[p] == BACKSLASH
    requires Copied(value, result, pos, p) && written == result + value[pos..p1]
    requires !Escapable(CharAt(value, p1)) && CharAt(value, p1) != 'n'
    requires forall k | p1 <= k < q :: value[k] != BACKSLASH
    ensures Copied(value, written, p1, q)
  {
    DecodeAt(value, p);
    DecodeTurn(value, result + value[pos..p], p, [BACKSLASH], p1, q);
    SliceSnoc(value, result, pos, p, p1);
  }

  lemma SliceSnoc(value: string, result: string, pos: nat, p: nat, p1: nat)
    requires pos <= p < p1 <= |value| && p1 == p + 1
    ensures result + value[pos..p] + [value[p]] == result + value[pos..p1]
  {
    assert value[pos..p] + [value[p]] == value[pos..p1];
    Associative(result, value[pos..p], [value[p]]);
  }

  /** npos is |value|. */
  method Unescape(value: string) returns (result: string)
    ensures result == Decode(value)
  {
    result := "";
    var pos := 0;
    var pos1 := IndexFrom(value, BACKSLASH, 0);
    CopiedFirst(value, pos1);
    if pos1 != |value| {
      while pos1 != |value|
        invariant 0 <= pos && 0 <= pos1 && Copied(value, result, pos, pos1)
        invariant pos1 < |value| ==> value[pos1] == BACKSLASH
        decreases |value| - pos1
      {
        ghost var result0, pos0, p := result, pos, pos1;
        var c := CharAt(value, pos1 + 1);
        if Escapable(c) {
          result := result + value[pos..pos1];
          pos := pos1 + 1;
          pos1 := IndexFrom(value, BACKSLASH, pos + 1);
          EscapedTurn(value, result0, pos0, p, result, pos, pos + 1, pos1);
        } else if c == 'n' {
          result := result + value[pos..pos1] + "\n";
          pos := pos1 + 1;
          pos1 := IndexFrom(value, BACKSLASH, pos);
          pos := pos + 1;
          NewlineTurn(value, result0, pos0, p, result, p + 1, pos, pos1);
        } else {
          result := result + value[pos..pos1 + 1];
          pos := pos1 + 1;
          pos1 := IndexFrom(value, BACKSLASH, pos);
          OtherTurn(value, result0, pos0, p, result, pos, pos1);
        }
      }
      CopiedAll(value, result, pos);
      result := result + value[pos..];
    } else {
      CopiedAll(value, "", 0);
      result := value;
    }
  }
}
