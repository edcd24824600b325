/** Splitting and joining of text at one separator character, as done by
    boost::char_separator (which drops empty tokens) for '/' in paths and ',' in
    vector attributes. */
module Text {

  /** std::string::find_first_of for one character, from a position; |s| stands for npos. */
  function IndexFrom(s: string, c: char, from: nat): (r: nat)
    requires from <= |s|
    ensures from <= r <= |s|
    ensures forall k :: from <= k < r ==> s[k] != c
    ensures r < |s| ==> s[r] == c
    decreases |s| - from
  {
    if from == |s| || s[from] == c then from else IndexFrom(s, c, from + 1)
  }

  /** The non-empty pieces of s between separators, in order. */
  function Tokens(s: string, sep: char): seq<string>
    decreases |s|
  {
    if s == "" then []
    else
      var i := IndexFrom(s, sep, 0);
      (if i == 0 then [] else [s[..i]]) + (if i == |s| then [] else Tokens(s[i + 1..], sep))
  }

  function Join(ts: seq<string>, sep: char): string
  {
    if ts == [] then ""
    else if |ts| == 1 then ts[0]
    else ts[0] + [sep] + Join(ts[1..], sep)
  }

  /** A piece that survives a split unchanged. */
  predicate Clean(t: string, sep: char) {
    t != "" && sep !in t
  }

  predicate AllClean(ts: seq<string>, sep: char) {
    forall t | t in ts :: Clean(t, sep)
  }

  lemma {:induction false} TokensAreClean(s: string, sep: char)
    ensures AllClean(Tokens(s, sep), sep)
    decreases |s|
  {
    if s != "" {
      var i := IndexFrom(s, sep, 0);
      assert forall k :: 0 <= k < i ==> s[..i][k] == s[k];
      if i < |s| { TokensAreClean(s[i + 1..], sep); }
    }
  }

  lemma IndexUnique(s: string, c: char, i: nat)
    requires i <= |s| && c !in s[..i] && (i < |s| ==> s[i] == c)
    ensures IndexFrom(s, c, 0) == i
  {
    assert forall k :: 0 <= k < i ==> s[..i][k] == s[k];
  }

  /** Tokens, given where the first separator is. */
  lemma TokensStep(s: string, sep: char, i: nat)
    requires i < |s| && s[i] == sep && sep !in s[..i]
    ensures Tokens(s, sep) == (if i == 0 then [] else [s[..i]]) + Tokens(s[i + 1..], sep)
  {
    IndexUnique(s, sep, i);
  }

  /** A separator in the text splits the tokens at that point. */
  lemma {:induction false} TokensAtSeparator(a: string, b: string, sep: char)
    ensures Tokens(a + [sep] + b, sep) == Tokens(a, sep) + Tokens(b, sep)
    decreases |a|
  {
    var i := IndexFrom(a, sep, 0);
    FirstSeparator(a, b, sep, i);
    var s := a + [sep] + b;
    TokensStep(s, sep, i);
    if i == |a| {
      TokensWithout(a, sep);
    } else {
      var first := if i == 0 then [] else [a[..i]];
      TokensStep(a, sep, i);
      TokensAtSeparator(a[i + 1..], b, sep);
      Associative(first, Tokens(a[i + 1..], sep), Tokens(b, sep));
    }
  }

  lemma FirstSeparator(a: string, b: string, sep: char, i: nat)
    requires i == IndexFrom(a, sep, 0)
    ensures var s := a + [sep] + b;
            && i < |s| && s[..i] == a[..i] && s[i] == sep && sep !in a[..i]
            && s[i + 1..] == if i == |a| then b else a[i + 1..] + [sep] + b
  {
    forall k | 0 <= k < i ensures a[..i][k] != sep { assert a[k] != sep; }
  }

  lemma Associative<T>(a: seq<T>, b: seq<T>, c: seq<T>)
    ensures a + (b + c) == a + b + c
  {
  }

  lemma TokensWithout(a: string, sep: char)
    requires sep !in a
    ensures Tokens(a, sep) == if a == "" then [] else [a]
  {
    IndexUnique(a, sep, |a|);
    assert a[..|a|] == a;
  }

  lemma TokensOfOne(t: string, sep: char)
    requires Clean(t, sep)
    ensures Tokens(t, sep) == [t]
  {
    TokensWithout(t, sep);
  }

  /** Joining and splitting again is the identity exactly on lists of clean pieces. */
  lemma {:induction false} RoundTrip(ts: seq<string>, sep: char)
    ensures Tokens(Join(ts, sep), sep) == ts <==> AllClean(ts, sep)
  {
    TokensAreClean(Join(ts, sep), sep);
    if AllClean(ts, sep) { CleanRoundTrip(ts, sep); }
  }

  lemma {:induction false} CleanRoundTrip(ts: seq<string>, sep: char)
    requires AllClean(ts, sep)
    ensures Tokens(Join(ts, sep), sep) == ts
  {
    if |ts| == 1 {
      TokensOfOne(ts[0], sep);
    } else if |ts| > 1 {
      TokensAtSeparator(ts[0], Join(ts[1..], sep), sep);
      TokensOfOne(ts[0], sep);
      CleanRoundTrip(ts[1..], sep);
    }
  }

  /** tokenize_values: appends the comma-separated pieces of val to values. */
  method TokenizeValues(val: string, values: seq<string>) returns (r: seq<string>)
    ensures r == values + Tokens(val, ',')
  {
    r := values;
    var tok := Tokens(val, ',');
    var tit := 0;
    while tit < |tok|
      invariant 0 <= tit <= |tok|
      invariant r == values + tok[..tit]
    {
      r := r + [tok[tit]];
      tit := tit + 1;
    }
  }

  /** concat_values: one text with commas between the values. */
  method ConcatValues(values: seq<string>) returns (result: string)
    ensures result == Join(values, ',')
  {
    result := "";
    var it := 0;
    while it != |values|
      invariant 0 <= it <= |values|
      invariant result + Join(values[it..], ',') == Join(values, ',')
    {
      ghost var rest := values[it..];
      result := result + values[it];
      it := it + 1;
      assert rest[1..] == values[it..];
      if it != |values| {
        result := result + ",";
      }
    }
  }
}
