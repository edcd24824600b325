/** find_recursive and list_recursive: which relative paths a recursive listing reports, and in which
    order. */
module Listing {
  import opened Operations
  import opened Removal
  import opened Runs
  import opened Schema
  import opened Text
  import opened Walk

  // ---------------------------------------------------------------------- nodes visited

  /** The nodes reported below dir, in order: `first` selects among the children of dir, `inner` below. */
  function FoundFrom(t: Tables, dir: nat, first: string -> bool, inner: string -> bool): seq<nat>
    requires Base(t)
    decreases t.next - dir, 1, 0
  {
    MatchingIsBelow(t, dir, first);
    FoundOver(t, dir, Matching(t, dir, first), inner)
  }

  function FoundOver(t: Tables, dir: nat, kids: seq<nat>, inner: string -> bool): seq<nat>
    requires Base(t) && ChildrenOf(t, dir, kids)
    decreases t.next - dir, 0, |kids|
  {
    if kids == [] then []
    else
      assert kids[0] in kids;
      ChildrenRest(t, dir, kids);
      (if t.nodes[kids[0]].isDir then FoundFrom(t, kids[0], inner, inner) else [])
      + [kids[0]] + FoundOver(t, dir, kids[1..], inner)
  }

  predicate ChildrenOf(t: Tables, dir: nat, kids: seq<nat>) {
    && (forall k | k in kids :: k in t.nodes && t.nodes[k].parent == dir && dir < k < t.next)
    && (forall i, j | 0 <= i < j < |kids| :: kids[i] != kids[j])
  }

  lemma ChildrenRest(t: Tables, dir: nat, kids: seq<nat>)
    requires ChildrenOf(t, dir, kids) && kids != []
    ensures ChildrenOf(t, dir, kids[1..]) && kids[0] !in kids[1..]
  {
  }

  lemma MatchingIsBelow(t: Tables, dir: nat, pattern: string -> bool)
    requires Base(t)
    ensures ChildrenOf(t, dir, Matching(t, dir, pattern))
    ensures forall k :: k in Matching(t, dir, pattern) <==>
            k in t.nodes && t.nodes[k].parent == dir && pattern(t.nodes[k].name)
    ensures var kids := Matching(t, dir, pattern); forall i, j | 0 <= i < j < |kids| :: kids[i] < kids[j]
  {
    ChildrenAre(t, dir);
    forall k | k in Matching(t, dir, pattern) ensures dir < k < t.next {
      assert RowOk(k, t.nodes[k], t.next);
    }
  }

  /** The kind that the last forced find leaves in the handle. */
  function LastKind(t: Tables, dir: nat, first: string -> bool, inner: string -> bool): Kind
    requires Base(t)
    decreases t.next - dir
  {
    var kids := Matching(t, dir, first);
    MatchingIsBelow(t, dir, first);
    if kids == [] then Directory
    else
      var last := kids[|kids| - 1];
      assert last in kids;
      if t.nodes[last].isDir then LastKind(t, last, inner, inner) else Entry
  }

  /** x is the youngest child of p that matches. */
  predicate Youngest(t: Tables, p: nat, pattern: string -> bool, x: nat) {
    && x in t.nodes && t.nodes[x].parent == p && pattern(t.nodes[x].name)
    && forall y | y in t.nodes && t.nodes[y].parent == p && pattern(t.nodes[y].name) :: y <= x
  }

  /** x is reached from dir by going to the youngest match every time. */
  predicate YoungestChain(t: Tables, dir: nat, first: string -> bool, inner: string -> bool, x: nat)
    decreases x
  {
    && x in t.nodes && t.nodes[x].parent < x
    && var p := t.nodes[x].parent;
       if p == dir then Youngest(t, dir, first, x)
           else Youngest(t, p, inner, x) && YoungestChain(t, dir, first, inner, p)
  }

  lemma {:induction false} YoungestChainJoins(t: Tables, dir: nat, first: string -> bool, inner: string -> bool, k: nat,
                                              x: nat)
    requires Base(t) && Youngest(t, dir, first, k) && YoungestChain(t, k, inner, inner, x)
    ensures YoungestChain(t, dir, first, inner, x) && dir < x
    decreases x
  {
    assert RowOk(k, t.nodes[k], t.next);
    if t.nodes[x].parent != k { YoungestChainJoins(t, dir, first, inner, k, t.nodes[x].parent); }
  }

  lemma {:induction false} YoungestChainSplits(t: Tables, dir: nat, first: string -> bool, inner: string -> bool,
                                               k: nat, x: nat)
    requires Base(t) && Youngest(t, dir, first, k) && YoungestChain(t, dir, first, inner, x)
    ensures x == k || YoungestChain(t, k, inner, inner, x)
    decreases x
  {
    if t.nodes[x].parent != dir { YoungestChainSplits(t, dir, first, inner, k, t.nodes[x].parent); }
  }

  lemma YoungestStarts(t: Tables, dir: nat, first: string -> bool, inner: string -> bool, x: nat)
    requires YoungestChain(t, dir, first, inner, x)
    ensures exists k :: Youngest(t, dir, first, k)
    decreases x
  {
    if t.nodes[x].parent != dir { YoungestStarts(t, dir, first, inner, t.nodes[x].parent); }
  }

  /** The last look-up of a recursive listing finds an entry exactly if an entry is reached by going to the
      youngest match every time. */
  lemma {:induction false} LastKindIff(t: Tables, dir: nat, first: string -> bool, inner: string -> bool)
    requires Tree(t)
    ensures LastKind(t, dir, first, inner) == Entry <==> LeadsToLeaf(t, dir, first, inner)
    decreases t.next - dir
  {
    var kids := Matching(t, dir, first);
    MatchingIsBelow(t, dir, first);
    if kids == [] {
      if LeadsToLeaf(t, dir, first, inner) { LeafNeedsChild(t, dir, first, inner); }
    } else {
      var last := kids[|kids| - 1];
      assert last in kids;
      assert Youngest(t, dir, first, last);
      if t.nodes[last].isDir {
        LastKindIff(t, last, inner, inner);
        LeafBelowYoungest(t, dir, first, inner, last);
      } else {
        assert YoungestChain(t, dir, first, inner, last);
      }
    }
  }

  lemma LeafNeedsChild(t: Tables, dir: nat, first: string -> bool, inner: string -> bool)
    requires LeadsToLeaf(t, dir, first, inner)
    ensures exists k :: Youngest(t, dir, first, k)
  {
    var x :| x in t.nodes && YoungestChain(t, dir, first, inner, x) && !t.nodes[x].isDir;
    YoungestStarts(t, dir, first, inner, x);
  }

  predicate LeadsToLeaf(t: Tables, dir: nat, first: string -> bool, inner: string -> bool) {
    exists x | x in t.nodes :: YoungestChain(t, dir, first, inner, x) && !t.nodes[x].isDir
  }

  lemma LeafBelowYoungest(t: Tables, dir: nat, first: string -> bool, inner: string -> bool, k: nat)
    requires Base(t) && Youngest(t, dir, first, k) && t.nodes[k].isDir
    ensures LeadsToLeaf(t, dir, first, inner) <==> LeadsToLeaf(t, k, inner, inner)
  {
    if x :| x in t.nodes && YoungestChain(t, k, inner, inner, x) && !t.nodes[x].isDir {
      YoungestChainJoins(t, dir, first, inner, k, x);
    }
    if x :| x in t.nodes && YoungestChain(t, dir, first, inner, x) && !t.nodes[x].isDir {
      YoungestChainSplits(t, dir, first, inner, k, x);
    }
  }

  // ------------------------------------------------------------- completeness, on nodes

  /** x lies below dir and every name on the way down to it matches. */
  predicate Chain(t: Tables, dir: nat, first: string -> bool, inner: string -> bool, x: nat)
    decreases x
  {
    && x in t.nodes && t.nodes[x].parent < x
    && if t.nodes[x].parent == dir then first(t.nodes[x].name)
       else inner(t.nodes[x].name) && Chain(t, dir, first, inner, t.nodes[x].parent)
  }

  /** x is a proper ancestor of y. */
  predicate Above(t: Tables, x: nat, y: nat)
    decreases y
  {
    y in t.nodes && t.nodes[y].parent < y && (t.nodes[y].parent == x || Above(t, x, t.nodes[y].parent))
  }

  lemma {:induction false} ChainSplits(t: Tables, dir: nat, first: string -> bool, inner: string -> bool, x: nat)
    requires Base(t) && Chain(t, dir, first, inner, x)
    ensures var k := Branch(t.nodes, dir, x);
            && k in t.nodes && t.nodes[k].parent == dir && first(t.nodes[k].name) && dir < k <= x
            && (x == k || (Chain(t, k, inner, inner, x) && Above(t, k, x)))
    decreases x
  {
    if t.nodes[x].parent != dir { ChainSplits(t, dir, first, inner, t.nodes[x].parent); }
  }

  lemma {:induction false} ChainJoins(t: Tables, dir: nat, first: string -> bool, inner: string -> bool, k: nat, x: nat)
    requires Base(t) && k in t.nodes && t.nodes[k].parent == dir && first(t.nodes[k].name)
    requires Chain(t, k, inner, inner, x)
    ensures Chain(t, dir, first, inner, x) && Branch(t.nodes, dir, x) == k && dir < k < x
    decreases x
  {
    assert RowOk(k, t.nodes[k], t.next) && RowOk(x, t.nodes[x], t.next);
    if t.nodes[x].parent != k {
      ChainJoins(t, dir, first, inner, k, t.nodes[x].parent);
      assert RowOk(t.nodes[x].parent, t.nodes[t.nodes[x].parent], t.next);
    }
  }

  lemma {:induction false} AboveKeepsBranch(t: Tables, dir: nat, x: nat, y: nat)
    requires Base(t) && Above(t, x, y) && dir < x
    ensures x < y && x in t.nodes ==> Branch(t.nodes, dir, y) == Branch(t.nodes, dir, x)
    ensures x < y
    decreases y
  {
    var p := t.nodes[y].parent;
    if p == x {
    } else {
      AboveKeepsBranch(t, dir, x, p);
    }
  }

  /** No repetition, and nothing before something below it. */
  predicate WellOrdered(t: Tables, s: seq<nat>) {
    forall i, j | 0 <= i < j < |s| :: s[i] != s[j] && !Above(t, s[i], s[j])
  }

  /** The listing below the children given: exactly the matching chains that start with one of them. */
  lemma {:induction false} FoundOverIs(t: Tables, dir: nat, kids: seq<nat>, first: string -> bool,
                                       inner: string -> bool)
    requires Tree(t) && ChildrenOf(t, dir, kids) && forall k | k in kids :: first(t.nodes[k].name)
    ensures forall x :: x in FoundOver(t, dir, kids, inner) <==>
                        Chain(t, dir, first, inner, x) && Branch(t.nodes, dir, x) in kids
    ensures WellOrdered(t, FoundOver(t, dir, kids, inner))
    decreases t.next - dir, 0, |kids|
  {
    if kids != [] {
      var k := kids[0];
      assert k in kids;
      ChildrenRest(t, dir, kids);
      FoundOverIs(t, dir, kids[1..], first, inner);
      var part := if t.nodes[k].isDir then FoundFrom(t, k, inner, inner) else [];
      OnePart(t, dir, first, inner, k);
      var rest := FoundOver(t, dir, kids[1..], inner);
      var all := part + [k] + rest;
      assert all == FoundOver(t, dir, kids, inner);
      forall x ensures x in all <==> Chain(t, dir, first, inner, x) && Branch(t.nodes, dir, x) in kids {
        var b := Branch(t.nodes, dir, x);
        assert b in kids <==> b == k || b in kids[1..];
        assert x in all <==> x in part + [k] || x in rest;
      }
      forall x | x in part + [k] ensures dir < x && x in t.nodes && Branch(t.nodes, dir, x) == k {
        ChainSplits(t, dir, first, inner, x);
      }
      ConcatParts(t, dir, part + [k], rest, k);
    }
  }

  /** What is reported for one child: the chains through it, itself last. */
  lemma {:induction false} OnePart(t: Tables, dir: nat, first: string -> bool, inner: string -> bool, k: nat)
    requires Tree(t) && k in t.nodes && t.nodes[k].parent == dir && dir < k < t.next && first(t.nodes[k].name)
    ensures var part := (if t.nodes[k].isDir then FoundFrom(t, k, inner, inner) else []) + [k];
            && (forall x :: x in part <==> Chain(t, dir, first, inner, x) && Branch(t.nodes, dir, x) == k)
            && WellOrdered(t, part)
    decreases t.next - k, 2, 0
  {
    var below := if t.nodes[k].isDir then FoundFrom(t, k, inner, inner) else [];
    if t.nodes[k].isDir {
      FoundFromIs(t, k, inner, inner);
    }
    forall x ensures x in below <==> Chain(t, k, inner, inner, x) {
      if !t.nodes[k].isDir && Chain(t, k, inner, inner, x) { ChainNeedsDir(t, k, inner, x); }
    }
    forall x ensures x in below + [k] <==> Chain(t, dir, first, inner, x) && Branch(t.nodes, dir, x) == k {
      if x in below { ChainJoins(t, dir, first, inner, k, x); }
      if Chain(t, dir, first, inner, x) { ChainSplits(t, dir, first, inner, x); }
    }
    forall i | 0 <= i < |below| ensures below[i] != k && !Above(t, below[i], k) {
      assert below[i] in below;
      ChainJoins(t, dir, first, inner, k, below[i]);
      if Above(t, below[i], k) { AboveKeepsBranch(t, dir, below[i], k); }
    }
  }

  lemma ChainNeedsDir(t: Tables, k: nat, inner: string -> bool, x: nat)
    requires Tree(t) && k in t.nodes && Chain(t, k, inner, inner, x)
    ensures t.nodes[k].isDir
  {
    ChainSplits(t, k, inner, inner, x);
    var c := Branch(t.nodes, k, x);
    assert RowOk(c, t.nodes[c], t.next) && RowOk(k, t.nodes[k], t.next);
    assert HasParent(t, c);
  }

  lemma ConcatParts(t: Tables, dir: nat, a: seq<nat>, b: seq<nat>, k: nat)
    requires Base(t) && WellOrdered(t, a) && WellOrdered(t, b)
    requires forall x | x in a :: dir < x && x in t.nodes && Branch(t.nodes, dir, x) == k
    requires forall x | x in b :: Branch(t.nodes, dir, x) != k
    ensures WellOrdered(t, a + b)
  {
    forall i, j | 0 <= i < |a| && 0 <= j < |b| ensures a[i] != b[j] && !Above(t, a[i], b[j]) {
      assert a[i] in a && b[j] in b;
      if Above(t, a[i], b[j]) { AboveKeepsBranch(t, dir, a[i], b[j]); }
    }
  }

  /** The recursive listing reports each matching node below dir once, and never before a node below it. */
  lemma {:induction false} FoundFromIs(t: Tables, dir: nat, first: string -> bool, inner: string -> bool)
    requires Tree(t)
    ensures forall x :: x in FoundFrom(t, dir, first, inner) <==> Chain(t, dir, first, inner, x)
    ensures WellOrdered(t, FoundFrom(t, dir, first, inner))
    decreases t.next - dir, 1, 0
  {
    MatchingIsBelow(t, dir, first);
    FoundOverIs(t, dir, Matching(t, dir, first), first, inner);
    forall x | Chain(t, dir, first, inner, x) ensures Branch(t.nodes, dir, x) in Matching(t, dir, first) {
      ChainSplits(t, dir, first, inner, x);
    }
  }

  // ------------------------------------------------------------ completeness, on path texts

  /** The names from dir down to x. */
  function Rel(t: Tables, dir: nat, x: nat): (r: seq<string>)
    requires Above(t, dir, x)
    ensures r != [] && r[|r| - 1] == t.nodes[x].name
    decreases x
  {
    var p := t.nodes[x].parent;
    (if p == dir then [] else Rel(t, dir, p)) + [t.nodes[x].name]
  }

  predicate NamesMatch(names: seq<string>, first: string -> bool, inner: string -> bool) {
    names != [] && first(names[0]) && forall i | 1 <= i < |names| :: inner(names[i])
  }

  lemma NamesMatchOneMore(a: seq<string>, n: string, first: string -> bool, inner: string -> bool)
    requires a != []
    ensures NamesMatch(a + [n], first, inner) <==> NamesMatch(a, first, inner) && inner(n)
  {
    assert (a + [n])[|a|] == n;
    assert forall i | 0 <= i < |a| :: (a + [n])[i] == a[i];
  }

  lemma {:induction false} ChainIsRel(t: Tables, dir: nat, first: string -> bool, inner: string -> bool, x: nat)
    ensures Chain(t, dir, first, inner, x) <==> Above(t, dir, x) && NamesMatch(Rel(t, dir, x), first, inner)
    decreases x
  {
    if x in t.nodes && t.nodes[x].parent < x && t.nodes[x].parent != dir {
      ChainIsRel(t, dir, first, inner, t.nodes[x].parent);
      if Above(t, dir, x) { NamesMatchOneMore(Rel(t, dir, t.nodes[x].parent), t.nodes[x].name, first, inner); }
    }
  }

  lemma {:induction false} RelResolves(t: Tables, dir: nat, x: nat)
    requires Base(t) && dir != 0 && Above(t, dir, x)
    ensures AllPlain(Rel(t, dir, x)) && Resolve(t, dir, Rel(t, dir, x)) == At(x)
    decreases x
  {
    var p, name := t.nodes[x].parent, t.nodes[x].name;
    assert RowOk(x, t.nodes[x], t.next);
    LookupIs(t, name, p, x);
    assert Resolve(t, p, [name]) == At(x);
    if p != dir {
      RelResolves(t, dir, p);
      ResolveConcat(t, dir, Rel(t, dir, p), [name]);
    } else {
      assert Rel(t, dir, x) == [name];
    }
  }

  lemma {:induction false} ResolvesToRel(t: Tables, dir: nat, p: seq<string>)
    requires Base(t) && dir != 0 && p != [] && AllPlain(p) && Resolve(t, dir, p).At?
    ensures Above(t, dir, Resolve(t, dir, p).node) && Rel(t, dir, Resolve(t, dir, p).node) == p
    decreases |p|
  {
    var name := p[|p| - 1];
    assert p == Pop(p) + [name];
    ResolveConcat(t, dir, Pop(p), [name]);
    var q := Resolve(t, dir, Pop(p)).node;
    ResolvedIsPositive(t, dir, Pop(p));
    assert PlainName(name);
    assert Resolve(t, q, [name]) == At(Lookup(t, name, q));
    LookupSound(t, name, q);
    if Pop(p) != [] { ResolvesToRel(t, dir, Pop(p)); RelIsAbove(t, dir, q); }
  }

  lemma {:induction false} RelIsAbove(t: Tables, dir: nat, x: nat)
    requires Above(t, dir, x)
    ensures x != dir
    decreases x
  {
    if t.nodes[x].parent != dir { AboveIsLess(t, dir, x); }
  }

  lemma {:induction false} AboveIsLess(t: Tables, x: nat, y: nat)
    requires Above(t, x, y)
    ensures x < y
    decreases y
  {
    if t.nodes[y].parent != x { AboveIsLess(t, x, t.nodes[y].parent); }
  }

  /** The relative path texts of the nodes listed. */
  function Texts(t: Tables, dir: nat, ids: seq<nat>): (r: seq<string>)
    requires forall x | x in ids :: Above(t, dir, x)
    ensures |r| == |ids|
    ensures forall i | 0 <= i < |ids| :: ids[i] in ids && r[i] == Join(Rel(t, dir, ids[i]), '/')
  {
    seq(|ids|, i requires 0 <= i < |ids| => assert ids[i] in ids; Join(Rel(t, dir, ids[i]), '/'))
  }

  /** A relative path below dir all of whose components match. */
  predicate MatchingPath(t: Tables, dir: nat, first: string -> bool, inner: string -> bool, p: seq<string>) {
    AllPlain(p) && NamesMatch(p, first, inner) && Resolve(t, dir, p).At?
  }

  lemma FoundIsBelow(t: Tables, dir: nat, first: string -> bool, inner: string -> bool)
    requires Tree(t)
    ensures forall x | x in FoundFrom(t, dir, first, inner) :: Above(t, dir, x)
  {
    FoundFromIs(t, dir, first, inner);
    forall x | x in FoundFrom(t, dir, first, inner) ensures Above(t, dir, x) { ChainIsRel(t, dir, first, inner, x); }
  }

  /** The recursive listing of a directory. */
  function Report(t: Tables, dir: nat, first: string -> bool, inner: string -> bool): seq<string>
    requires Tree(t)
  {
    FoundIsBelow(t, dir, first, inner);
    Texts(t, dir, FoundFrom(t, dir, first, inner))
  }

  /** Complete: a text is reported exactly if it spells a relative path below dir whose first component
      matches `first` and whose other components match `inner`. */
  lemma ListingIsComplete(t: Tables, dir: nat, first: string -> bool, inner: string -> bool, s: string)
    requires Tree(t) && dir in t.nodes
    ensures s in Report(t, dir, first, inner) <==>
            exists p :: MatchingPath(t, dir, first, inner, p) && s == Join(p, '/')
  {
    if s in Report(t, dir, first, inner) {
      var p := ReportedIsPath(t, dir, first, inner, s);
    }
    if p :| MatchingPath(t, dir, first, inner, p) && s == Join(p, '/') {
      PathIsReported(t, dir, first, inner, p);
    }
  }

  lemma ReportedIsPath(t: Tables, dir: nat, first: string -> bool, inner: string -> bool, s: string)
      returns (p: seq<string>)
    requires Tree(t) && dir in t.nodes && s in Report(t, dir, first, inner)
    ensures MatchingPath(t, dir, first, inner, p) && s == Join(p, '/')
  {
    FoundFromIs(t, dir, first, inner);
    assert dir != 0 by { assert RowOk(dir, t.nodes[dir], t.next); }
    var ids, r := FoundFrom(t, dir, first, inner), Report(t, dir, first, inner);
    var i :| 0 <= i < |r| && r[i] == s;
    assert ids[i] in ids;
    ChainIsRel(t, dir, first, inner, ids[i]);
    RelResolves(t, dir, ids[i]);
    p := Rel(t, dir, ids[i]);
  }

  lemma PathIsReported(t: Tables, dir: nat, first: string -> bool, inner: string -> bool, p: seq<string>)
    requires Tree(t) && dir in t.nodes && MatchingPath(t, dir, first, inner, p)
    ensures Join(p, '/') in Report(t, dir, first, inner)
  {
    FoundFromIs(t, dir, first, inner);
    assert dir != 0 by { assert RowOk(dir, t.nodes[dir], t.next); }
    ResolvesToRel(t, dir, p);
    var ids, x := FoundFrom(t, dir, first, inner), Resolve(t, dir, p).node;
    ChainIsRel(t, dir, first, inner, x);
    var i :| 0 <= i < |ids| && ids[i] == x;
    assert Report(t, dir, first, inner)[i] == Join(p, '/');
  }

  /** Each path once, and no directory before a path inside it. */
  lemma ListingIsOrdered(t: Tables, dir: nat, first: string -> bool, inner: string -> bool)
    requires Tree(t) && dir in t.nodes
    ensures var r := Report(t, dir, first, inner);
            forall i, j | 0 <= i < j < |r| :: r[i] != r[j] && !(Tokens(r[i], '/') < Tokens(r[j], '/'))
  {
    FoundFromIs(t, dir, first, inner);
    FoundIsBelow(t, dir, first, inner);
    assert dir != 0 by { assert RowOk(dir, t.nodes[dir], t.next); }
    var ids, r := FoundFrom(t, dir, first, inner), Report(t, dir, first, inner);
    forall i, j | 0 <= i < j < |r| ensures r[i] != r[j] && !(Tokens(r[i], '/') < Tokens(r[j], '/')) {
      assert ids[i] in ids && ids[j] in ids;
      TextsOfTwo(t, dir, ids[i], ids[j]);
    }
  }

  lemma TextsOfTwo(t: Tables, dir: nat, x: nat, y: nat)
    requires Base(t) && dir != 0 && Above(t, dir, x) && Above(t, dir, y) && x != y && !Above(t, x, y)
    ensures var a, b := Join(Rel(t, dir, x), '/'), Join(Rel(t, dir, y), '/');
            a != b && !(Tokens(a, '/') < Tokens(b, '/'))
  {
    RelResolves(t, dir, x);
    RelResolves(t, dir, y);
    PlainRoundTrip(Rel(t, dir, x));
    PlainRoundTrip(Rel(t, dir, y));
    if Rel(t, dir, x) < Rel(t, dir, y) { PrefixIsAbove(t, dir, x, y); }
  }

  lemma PlainRoundTrip(p: seq<string>)
    requires AllPlain(p)
    ensures Tokens(Join(p, '/'), '/') == p
  {
    assert AllClean(p, '/');
    CleanRoundTrip(p, '/');
  }

  lemma {:induction false} PrefixIsAbove(t: Tables, dir: nat, x: nat, y: nat)
    requires Base(t) && dir != 0 && Above(t, dir, x) && Above(t, dir, y) && Rel(t, dir, x) < Rel(t, dir, y)
    ensures Above(t, x, y)
    decreases y
  {
    var q := t.nodes[y].parent;
    assert |Rel(t, dir, x)| >= 1;
    assert q != dir;
    assert Rel(t, dir, x) <= Rel(t, dir, q);
    if Rel(t, dir, x) == Rel(t, dir, q) {
      RelResolves(t, dir, x);
      RelResolves(t, dir, q);
    } else {
      PrefixIsAbove(t, dir, x, q);
    }
  }
}
