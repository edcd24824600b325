/** indent_message: the layout of one message inside a list of messages. */
module Messages {
  import opened Text

  const NEWLINE: char := '\n'

  predicate Blank(c: char) {
    c == ' ' || c == NEWLINE
  }

  /** find_first_not_of(" \n"); |s| stands for npos. */
  function FirstInk(s: string, from: nat): (r: nat)
    requires from <= |s|
    ensures from <= r <= |s|
    ensures forall k | from <= k < r :: Blank(s[k])
    ensures r < |s| ==> !Blank(s[r])
    decreases |s| - from
  {
    if from == |s| || !Blank(s[from]) then from else FirstInk(s, from + 1)
  }

  // ----------------------------------------------------------------------- the reference layout

  predicate AllBlank(s: string) {
    forall c | c in s :: Blank(c)
  }

  /** Without its leading lines of blanks. */
  function DropBlankLines(s: string): string
    decreases |s|
  {
    var i := IndexFrom(s, NEWLINE, 0);
    if i < |s| && AllBlank(s[..i]) then DropBlankLines(s[i + 1..]) else s
  }

  function SkipNewlines(s: string): string {
    if s != "" && s[0] == NEWLINE then SkipNewlines(s[1..]) else s
  }

  lemma SkipIsShorter(s: string)
    ensures |SkipNewlines(s)| <= |s|
    ensures SkipNewlines(s) != "" ==> SkipNewlines(s)[0] != NEWLINE
  {
  }

  /** A line, and the lines after it; runs of newlines count as one. */
  function Lines(s: string): string
    decreases |s|, 0
  {
    var i := IndexFrom(s, NEWLINE, 0);
    SkipIsShorter(s[if i < |s| then i + 1 else i..]);
    if i == |s| then s else s[..i + 1] + LaterLines(SkipNewlines(s[i + 1..]))
  }

  /** Lines after the first: two spaces before each one that a newline ends. */
  function LaterLines(s: string): string
    decreases |s|, 1
  {
    if IndexFrom(s, NEWLINE, 0) == |s| then s else "  " + Lines(s)
  }

  function Indented(s: string): string {
    Lines(DropBlankLines(s))
  }

  // -------------------------------------------------------------------- properties of the layout

  predicate NoDoubleNewline(s: string) {
    forall i | 0 <= i < |s| - 1 :: s[i] != '\n' || s[i + 1] != '\n'
  }

  lemma {:induction false} LinesAreSingle(s: string)
    requires s != "" ==> s[0] != NEWLINE
    ensures NoDoubleNewline(Lines(s))
    ensures s != "" ==> Lines(s) != "" && Lines(s)[0] == s[0]
    decreases |s|
  {
    var i := IndexFrom(s, NEWLINE, 0);
    if i < |s| {
      var rest := SkipNewlines(s[i + 1..]);
      SkipIsShorter(s[i + 1..]);
      LinesAreSingle(rest);
      var later := LaterLines(rest);
      assert later != "" ==> later[0] != NEWLINE;
      assert NoDoubleNewline(later) by {
        if later != rest {
          assert later == "  " + Lines(rest);
        }
      }
      assert Lines(s) == s[..i + 1] + later;
    }
  }

  lemma {:induction false} DroppedStart(s: string)
    ensures DropBlankLines(s) != "" ==> DropBlankLines(s)[0] != NEWLINE
    decreases |s|
  {
    var i := IndexFrom(s, NEWLINE, 0);
    if i < |s| && AllBlank(s[..i]) { DroppedStart(s[i + 1..]); }
  }

  /** The result never has two adjacent newlines. */
  lemma IndentedIsSingle(s: string)
    ensures NoDoubleNewline(Indented(s))
  {
    DroppedStart(s);
    LinesAreSingle(DropBlankLines(s));
  }

  /** A line begins the text that consists of spaces and ends with a newline. */
  predicate StartsBlank(s: string) {
    exists i | 0 <= i < |s| :: s[i] == '\n' && forall k | 0 <= k < i :: s[k] == ' '
  }

  lemma {:induction false} DroppedIsNotBlank(s: string)
    ensures !StartsBlank(DropBlankLines(s))
    decreases |s|
  {
    var i := IndexFrom(s, NEWLINE, 0);
    if i < |s| && AllBlank(s[..i]) {
      DroppedIsNotBlank(s[i + 1..]);
    }
  }

  lemma LinesStartAlike(s: string)
    ensures StartsBlank(Lines(s)) <==> StartsBlank(s)
  {
    var i := IndexFrom(s, NEWLINE, 0);
    if i < |s| {
      var r := Lines(s);
      LinesStep(s, i);
      assert forall k | 0 <= k <= i :: r[k] == s[..i + 1][k] == s[k];
      if StartsBlank(s) { assert r[i] == '\n'; }
      if StartsBlank(r) {
        var j :| 0 <= j < |r| && r[j] == '\n' && forall k | 0 <= k < j :: r[k] == ' ';
        assert j == i;
      }
    }
  }

  /** The result does not begin with a blank line. */
  lemma IndentedStartsWithText(s: string)
    ensures !StartsBlank(Indented(s))
  {
    DroppedIsNotBlank(s);
    LinesStartAlike(DropBlankLines(s));
  }

  /** The characters that are neither spaces nor newlines. */
  function Ink(s: string): string {
    if s == "" then "" else (if s[0] == ' ' || s[0] == '\n' then "" else [s[0]]) + Ink(s[1..])
  }

  lemma {:induction false} InkConcat(a: string, b: string)
    ensures Ink(a + b) == Ink(a) + Ink(b)
  {
    if a == "" {
      assert a + b == b;
    } else {
      assert (a + b)[1..] == a[1..] + b;
      InkConcat(a[1..], b);
    }
  }

  lemma {:induction false} InkOfBlank(s: string)
    requires AllBlank(s)
    ensures Ink(s) == ""
  {
    if s != "" {
      assert Blank(s[0]);
      InkOfBlank(s[1..]);
    }
  }

  lemma {:induction false} InkSkipped(s: string)
    ensures Ink(SkipNewlines(s)) == Ink(s)
  {
    if s != "" && s[0] == NEWLINE { InkSkipped(s[1..]); }
  }

  lemma {:induction false} InkOfLines(s: string)
    ensures Ink(Lines(s)) == Ink(s)
    decreases |s|
  {
    var i := IndexFrom(s, NEWLINE, 0);
    if i < |s| {
      var rest := SkipNewlines(s[i + 1..]);
      SkipIsShorter(s[i + 1..]);
      InkSkipped(s[i + 1..]);
      InkOfLines(rest);
      InkConcat("  ", Lines(rest));
      InkOfBlank("  ");
      assert s == s[..i + 1] + s[i + 1..];
      InkConcat(s[..i + 1], s[i + 1..]);
      InkConcat(s[..i + 1], LaterLines(rest));
    }
  }

  lemma {:induction false} InkDropped(s: string)
    ensures Ink(DropBlankLines(s)) == Ink(s)
    decreases |s|
  {
    var i := IndexFrom(s, NEWLINE, 0);
    if i < |s| && AllBlank(s[..i]) {
      InkDropped(s[i + 1..]);
      assert s == s[..i + 1] + s[i + 1..];
      InkConcat(s[..i + 1], s[i + 1..]);
      InkOfBlank(s[..i + 1]);
    }
  }

  /** No text is lost, added or reordered. */
  lemma IndentedKeepsInk(s: string)
    ensures Ink(Indented(s)) == Ink(s)
  {
    InkDropped(s);
    InkOfLines(DropBlankLines(s));
  }

  lemma LineOf(a: string, rest: string)
    requires '\n' !in a
    ensures Lines(a + "\n" + rest) == a + "\n" + LaterLines(SkipNewlines(rest))
    ensures IndexFrom(a + "\n" + rest, '\n', 0) == |a| && (a + "\n" + rest)[..|a|] == a
  {
    var s := a + "\n" + rest;
    assert s[..|a|] == a && s[|a|] == '\n' && s[..|a| + 1] == a + "\n" && s[|a| + 1..] == rest;
    IndexUnique(s, '\n', |a|);
  }

  lemma LastLine(c: string)
    requires '\n' !in c
    ensures Lines(c) == c && LaterLines(c) == c && SkipNewlines(c) == c
  {
    assert c[..|c|] == c;
    IndexUnique(c, '\n', |c|);
    if c != "" { assert c[0] in c; }
  }

  /** Three lines: the second one is indented by two spaces, the last one is not. */
  lemma ThreeLines(a: string, b: string, c: string)
    requires '\n' !in a && '\n' !in b && '\n' !in c && b != "" && exists x | x in a :: x != ' '
    ensures Indented(a + "\n" + (b + "\n" + c)) == a + "\n" + ("  " + (b + "\n" + c))
  {
    var tail := b + "\n" + c;
    LineOf(a, tail);
    LineOf(b, c);
    LastLine(c);
    assert tail[0] == b[0] && b[0] in b;
    assert SkipNewlines(tail) == tail;
    var x :| x in a && x != ' ';
    assert !Blank(x);
    assert DropBlankLines(a + "\n" + tail) == a + "\n" + tail;
  }

  // -------------------------------------------------------------------------------- the rewriter

  lemma IndexInTail(msg: string, from: nat)
    requires from <= |msg|
    ensures IndexFrom(msg[from..], NEWLINE, 0) == IndexFrom(msg, NEWLINE, from) - from
  {
    var i := IndexFrom(msg, NEWLINE, from);
    assert forall k | 0 <= k < i - from :: msg[from..][k] == msg[from + k];
    IndexUnique(msg[from..], NEWLINE, i - from);
  }

  lemma LinesStep(s: string, i: nat)
    requires i < |s| && i == IndexFrom(s, NEWLINE, 0)
    ensures Lines(s) == s[..i + 1] + LaterLines(SkipNewlines(s[i + 1..]))
  {
  }

  lemma TailSlices(msg: string, from: nat, k: nat)
    requires from <= k < |msg|
    ensures msg[from..][..k - from] == msg[from..k]
    ensures msg[from..][..k - from + 1] == msg[from..k + 1]
    ensures msg[from..][k - from + 1..] == msg[k + 1..]
  {
  }

  /** A line of text, while the leading blanks are behind. */
  lemma TextTurn(msg: string, pos1: nat, pos: nat)
    requires pos1 <= pos < |msg| && pos == IndexFrom(msg, NEWLINE, pos1)
    ensures Lines(msg[pos1..]) == msg[pos1..pos + 1] + LaterLines(SkipNewlines(msg[pos + 1..]))
  {
    IndexInTail(msg, pos1);
    LinesStep(msg[pos1..], pos - pos1);
    TailSlices(msg, pos1, pos);
  }

  lemma DropStep(s: string, i: nat)
    requires i < |s| && i == IndexFrom(s, NEWLINE, 0) && AllBlank(s[..i])
    ensures DropBlankLines(s) == DropBlankLines(s[i + 1..])
  {
  }

  lemma BlankTurn(msg: string, pos1: nat, pos: nat)
    requires pos1 <= pos < |msg| && pos == IndexFrom(msg, NEWLINE, pos1)
    requires forall k | pos1 <= k < pos :: Blank(msg[k])
    ensures DropBlankLines(msg[pos1..]) == DropBlankLines(msg[pos + 1..])
  {
    var tail, i := msg[pos1..], pos - pos1;
    IndexInTail(msg, pos1);
    assert AllBlank(tail[..i]) by {
      forall k | 0 <= k < i ensures Blank(tail[..i][k]) { assert tail[..i][k] == msg[pos1 + k]; }
    }
    DropStep(tail, i);
    TailSlices(msg, pos1, pos);
  }

  lemma InkStops(msg: string, pos1: nat, pos: nat, ink: nat)
    requires pos1 <= |msg| && pos == IndexFrom(msg, NEWLINE, pos1)
    requires pos1 <= ink < pos && !Blank(msg[ink])
    ensures DropBlankLines(msg[pos1..]) == msg[pos1..]
  {
    IndexInTail(msg, pos1);
    if pos < |msg| {
      assert msg[pos1..][..pos - pos1][ink - pos1] == msg[ink];
    }
  }

  lemma NoNewlineLeft(msg: string, pos1: nat)
    requires pos1 <= |msg| && IndexFrom(msg, NEWLINE, pos1) == |msg|
    ensures Lines(msg[pos1..]) == msg[pos1..] && Indented(msg[pos1..]) == msg[pos1..]
    ensures LaterLines(msg[pos1..]) == msg[pos1..]
  {
    IndexInTail(msg, pos1);
  }

  lemma LaterTurn(result: string, tail: string)
    requires IndexFrom(tail, NEWLINE, 0) != |tail|
    ensures result + LaterLines(tail) == result + "  " + Lines(tail)
  {
  }

  /** The do loop that steps over consecutive newlines, from the newline at pos0. */
  method SkipRun(msg: string, pos0: nat) returns (pos1: nat, pos: nat)
    requires pos0 < |msg|
    ensures pos0 < pos1 <= pos <= |msg| && pos == IndexFrom(msg, NEWLINE, pos1)
    ensures msg[pos1..] == SkipNewlines(msg[pos0 + 1..])
  {
    pos1 := pos0 + 1;
    pos := IndexFrom(msg, NEWLINE, pos1);
    while pos == pos1 && pos != |msg|
      invariant pos0 < pos1 <= pos <= |msg| && pos == IndexFrom(msg, NEWLINE, pos1)
      invariant SkipNewlines(msg[pos1..]) == SkipNewlines(msg[pos0 + 1..])
      decreases |msg| - pos1
    {
      assert msg[pos1..][1..] == msg[pos1 + 1..];
      pos1 := pos + 1;
      pos := IndexFrom(msg, NEWLINE, pos1);
    }
  }

  /** What is written so far, and what is still to come from pos1 on. */
  predicate Progress(msg: string, result: string, pos1: nat, firstNonWs: nat) {
    && pos1 <= |msg|
    && Indented(msg) == result + (if pos1 > firstNonWs then Lines(msg[pos1..]) else Indented(msg[pos1..]))
    && (pos1 <= firstNonWs ==> result == "")
  }

  lemma StartsWithLines(msg: string, result: string, pos1: nat, pos: nat, firstNonWs: nat)
    requires Progress(msg, result, pos1, firstNonWs) && firstNonWs == FirstInk(msg, 0)
    requires pos == IndexFrom(msg, NEWLINE, pos1) && pos > firstNonWs
    ensures Indented(msg) == result + Lines(msg[pos1..])
  {
    if pos1 <= firstNonWs { InkStops(msg, pos1, pos, firstNonWs); }
  }

  lemma LineWritten(msg: string, result: string, pos1: nat, pos: nat, next1: nat, next: nat, firstNonWs: nat)
    requires Progress(msg, result, pos1, firstNonWs) && firstNonWs == FirstInk(msg, 0)
    requires pos1 <= pos < |msg| && pos == IndexFrom(msg, NEWLINE, pos1) && firstNonWs < pos < next1 <= |msg|
    requires msg[next1..] == SkipNewlines(msg[pos + 1..]) && next == IndexFrom(msg, NEWLINE, next1)
    ensures next != |msg| ==> Progress(msg, result + msg[pos1..pos + 1] + "  ", next1, firstNonWs)
    ensures next == |msg| ==> Progress(msg, result + msg[pos1..pos + 1], next1, firstNonWs)
  {
    StartsWithLines(msg, result, pos1, pos, firstNonWs);
    var tail, written := msg[next1..], result + msg[pos1..pos + 1];
    TextTurn(msg, pos1, pos);
    Associative(result, msg[pos1..pos + 1], LaterLines(tail));
    IndexInTail(msg, next1);
    if next != |msg| {
      LaterTurn(written, tail);
    } else {
      NoNewlineLeft(msg, next1);
    }
  }

  lemma BlankSkipped(msg: string, result: string, pos1: nat, pos: nat, next1: nat, firstNonWs: nat)
    requires Progress(msg, result, pos1, firstNonWs) && firstNonWs == FirstInk(msg, 0)
    requires pos1 <= pos < |msg| && pos == IndexFrom(msg, NEWLINE, pos1) && pos <= firstNonWs && next1 == pos + 1
    ensures Progress(msg, result, next1, firstNonWs)
  {
    BlankTurn(msg, pos1, pos);
    if pos == firstNonWs { assert Blank(msg[pos]); assert false; }
  }

  lemma AllWritten(msg: string, result: string, pos1: nat, firstNonWs: nat)
    requires Progress(msg, result, pos1, firstNonWs) && IndexFrom(msg, NEWLINE, pos1) == |msg|
    ensures Indented(msg) == result + msg[pos1..]
  {
    NoNewlineLeft(msg, pos1);
  }

  lemma NothingWritten(msg: string)
    ensures Progress(msg, "", 0, FirstInk(msg, 0))
  {
    assert msg[0..] == msg && "" + Indented(msg) == Indented(msg);
  }

  /** The branch taken once there is text: the line up to the newline at pos0 is copied, the newlines after
      it are skipped, and the next line is indented if a newline ends it. */
  method WriteLine(msg: string, result0: string, start: nat, pos0: nat, ghost firstNonWs: nat)
      returns (result: string, pos1: nat, pos: nat)
    requires firstNonWs == FirstInk(msg, 0) && Progress(msg, result0, start, firstNonWs)
    requires start <= pos0 < |msg| && pos0 == IndexFrom(msg, NEWLINE, start) && firstNonWs < pos0
    ensures pos0 < pos1 <= pos <= |msg| && pos == IndexFrom(msg, NEWLINE, pos1)
    ensures Progress(msg, result, pos1, firstNonWs)
  {
    result := result0 + msg[start..pos0 + 1];
    pos1, pos := SkipRun(msg, pos0);
    LineWritten(msg, result0, start, pos0, pos1, pos, firstNonWs);
    if pos != |msg| {
      result := result + "  ";
    }
  }

  /** npos is |msg|. */
  method IndentMessage(msg: string) returns (result: string)
    ensures result == Indented(msg)
  {
    result := "";
    var pos := IndexFrom(msg, NEWLINE, 0);
    var firstNonWs := FirstInk(msg, 0);
    var pos1: nat := 0;
    NothingWritten(msg);
    while pos != |msg|
      invariant pos1 <= pos <= |msg| && pos == IndexFrom(msg, NEWLINE, pos1)
      invariant Progress(msg, result, pos1, firstNonWs)
      decreases |msg| - pos1
    {
      if pos > firstNonWs {
        result, pos1, pos := WriteLine(msg, result, pos1, pos, firstNonWs);
      } else {
        ghost var was1 := pos1;
        pos1 := pos + 1;
        BlankSkipped(msg, result, was1, pos, pos1, firstNonWs);
        pos := IndexFrom(msg, NEWLINE, pos1);
      }
    }
    AllWritten(msg, result, pos1, firstNonWs);
    result := result + msg[pos1..];
  }
}
