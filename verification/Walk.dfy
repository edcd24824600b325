/** database_connection::find: walking a path through the nodes table, optionally creating
    the nodes that are missing, and the meaning of a path. */
module Walk {
  import opened Errors
  import opened Schema
  import opened Text

  /** The create, create_parents and create_dir arguments of find. */
  datatype Mode = Look | Make(parents: bool, dir: bool)

  /** What find leaves behind: the tables, the node found (0: none) and the is_dir flag. */
  datatype Walked = Reached(t: Tables, node: nat, isDir: bool) | Thrown(error: ErrorCode)

  /** detail::is_last, on the tokens after the current one: at most one trailing "." is ignored. */
  predicate IsLast(rest: seq<string>) {
    rest == [] || rest == ["."]
  }

  /** The loop of find from node cur on, with the current value of its is_dir out-parameter. */
  function WalkFrom(t: Tables, cur: nat, flag: bool, toks: seq<string>, mode: Mode, now: string): Walked
    decreases |toks|
  {
    if toks == [] then Reached(t, cur, flag || cur == ROOT)
    else
      var entry, rest := toks[0], toks[1..];
      if entry == "." then WalkFrom(t, cur, flag, rest, mode, now)
      else if entry == ".." then
        if cur == ROOT then Thrown(INCORRECT_URL)
        else if cur !in t.nodes then Thrown(NO_SUCCESS)
        else WalkFrom(t, t.nodes[cur].parent, flag, rest, mode, now)
      else
        var id := Lookup(t, entry, cur);
        if id != 0 then WalkFrom(t, id, t.nodes[id].isDir, rest, mode, now)
        else if mode.Look? then Reached(t, 0, false)
        else if !mode.parents && !IsLast(rest) then Thrown(NO_SUCCESS)
        else
          var isDir := mode.dir || !IsLast(rest);
          WalkFrom(InsertNode(t, entry, cur, isDir, now), t.next, isDir, rest, mode, now)
  }

  function Find(t: Tables, path: string, flag: bool, mode: Mode, now: string): Walked {
    if path == "" || path[0] != '/' then Thrown(INCORRECT_URL)
    else WalkFrom(t, ROOT, flag, Tokens(path, '/'), mode, now)
  }

  // ------------------------------------------------------------------ what a path denotes

  datatype Place = At(node: nat) | Missing | Stuck(error: ErrorCode)

  /** The node a relative path leads to, without flags and without creating anything. */
  function Resolve(t: Tables, cur: nat, toks: seq<string>): Place
    decreases |toks|
  {
    if toks == [] then At(cur)
    else if toks[0] == "." then Resolve(t, cur, toks[1..])
    else if toks[0] == ".." then
      if cur == ROOT then Stuck(INCORRECT_URL)
      else if cur !in t.nodes then Stuck(NO_SUCCESS)
      else Resolve(t, t.nodes[cur].parent, toks[1..])
    else
      var id := Lookup(t, toks[0], cur);
      if id == 0 then Missing else Resolve(t, id, toks[1..])
  }

  /** The flag find carries after the last component: that of the last named node. */
  function FlagAfter(t: Tables, cur: nat, flag: bool, toks: seq<string>): bool
    requires Resolve(t, cur, toks).At?
    decreases |toks|
  {
    if toks == [] then flag
    else if toks[0] == "." then FlagAfter(t, cur, flag, toks[1..])
    else if toks[0] == ".." then FlagAfter(t, t.nodes[cur].parent, flag, toks[1..])
    else
      var id := Lookup(t, toks[0], cur);
      FlagAfter(t, id, t.nodes[id].isDir, toks[1..])
  }

  lemma {:induction false} ResolvedIsPositive(t: Tables, cur: nat, toks: seq<string>)
    requires Base(t) && cur != 0 && Resolve(t, cur, toks).At?
    ensures Resolve(t, cur, toks).node != 0
    decreases |toks|
  {
    if toks != [] {
      if toks[0] == "." {
        ResolvedIsPositive(t, cur, toks[1..]);
      } else if toks[0] == ".." {
        assert RowOk(cur, t.nodes[cur], t.next);
        ResolvedIsPositive(t, t.nodes[cur].parent, toks[1..]);
      } else {
        ResolvedIsPositive(t, Lookup(t, toks[0], cur), toks[1..]);
      }
    }
  }

  /** find without create is Resolve: it changes nothing, returns the node the path denotes, 0 for
      a missing one, and throws where Resolve is stuck. */
  lemma {:induction false} LookIsResolve(t: Tables, cur: nat, flag: bool, toks: seq<string>, now: string)
    requires Base(t) && cur != 0
    ensures WalkFrom(t, cur, flag, toks, Look, now) ==
            match Resolve(t, cur, toks)
            case At(n) => Reached(t, n, FlagAfter(t, cur, flag, toks) || n == ROOT)
            case Missing => Reached(t, 0, false)
            case Stuck(e) => Thrown(e)
    decreases |toks|
  {
    if toks != [] {
      if toks[0] == "." {
        LookIsResolve(t, cur, flag, toks[1..], now);
      } else if toks[0] == ".." {
        if cur != ROOT && cur in t.nodes {
          assert RowOk(cur, t.nodes[cur], t.next);
          LookIsResolve(t, t.nodes[cur].parent, flag, toks[1..], now);
        }
      } else {
        var id := Lookup(t, toks[0], cur);
        if id != 0 { LookIsResolve(t, id, t.nodes[id].isDir, toks[1..], now); }
      }
    }
  }

  lemma {:induction false} ResolveConcat(t: Tables, cur: nat, a: seq<string>, b: seq<string>)
    ensures Resolve(t, cur, a + b) ==
            match Resolve(t, cur, a) case At(n) => Resolve(t, n, b) case Missing => Missing case Stuck(e) => Stuck(e)
    decreases |a|
  {
    if a == [] {
      assert a + b == b;
    } else {
      assert (a + b)[1..] == a[1..] + b;
      if a[0] == "." {
        ResolveConcat(t, cur, a[1..], b);
      } else if a[0] == ".." {
        if cur != ROOT && cur in t.nodes { ResolveConcat(t, t.nodes[cur].parent, a[1..], b); }
      } else {
        ResolveConcat(t, Lookup(t, a[0], cur), a[1..], b);
      }
    }
  }

  // --------------------------------------------------------------- lexical normalisation

  function Pop(stack: seq<string>): seq<string> {
    if stack == [] then [] else stack[..|stack| - 1]
  }

  function Reduce(stack: seq<string>, toks: seq<string>): seq<string>
    decreases |toks|
  {
    if toks == [] then stack
    else if toks[0] == "." then Reduce(stack, toks[1..])
    else if toks[0] == ".." then Reduce(Pop(stack), toks[1..])
    else Reduce(stack + [toks[0]], toks[1..])
  }

  /** The path with "." dropped and every name/.. cancelled. */
  function Normalize(toks: seq<string>): seq<string> {
    Reduce([], toks)
  }

  predicate AllPlain(toks: seq<string>) {
    forall x | x in toks :: PlainName(x)
  }

  function PathText(toks: seq<string>): string {
    "/" + Join(toks, '/')
  }

  lemma TokensOfPathText(toks: seq<string>)
    requires AllClean(toks, '/')
    ensures Tokens(PathText(toks), '/') == toks
  {
    assert PathText(toks) == [] + ['/'] + Join(toks, '/');
    TokensAtSeparator([], Join(toks, '/'), '/');
    CleanRoundTrip(toks, '/');
  }

  lemma OneMoreToken(path: string, x: string)
    requires Clean(x, '/')
    ensures Tokens(path + "/" + x, '/') == Tokens(path, '/') + [x]
  {
    TokensAtSeparator(path, x, '/');
    TokensOfOne(x, '/');
  }

  lemma TokensOfThree(a: string, b: string, c: string)
    requires Clean(a, '/') && Clean(b, '/') && Clean(c, '/')
    ensures Tokens("" + "/" + a + "/" + b + "/" + c, '/') == [a, b, c]
  {
    OneMoreToken("", a);
    OneMoreToken("" + "/" + a, b);
    OneMoreToken("" + "/" + a + "/" + b, c);
  }

  /** One component of a path. */
  function Step(t: Tables, cur: nat, name: string): Place {
    if name == "." then At(cur)
    else if name == ".." then
      if cur == ROOT then Stuck(INCORRECT_URL)
      else if cur !in t.nodes then Stuck(NO_SUCCESS)
      else At(t.nodes[cur].parent)
    else
      var id := Lookup(t, name, cur);
      if id == 0 then Missing else At(id)
  }

  lemma ResolveStep(t: Tables, cur: nat, p: seq<string>)
    requires p != []
    ensures var s := Step(t, cur, p[0]); Resolve(t, cur, p) == if s.At? then Resolve(t, s.node, p[1..]) else s
  {
  }

  lemma PrefixStep(toks: seq<string>, j: nat, k: nat)
    requires k == j + 1 <= |toks|
    ensures toks[..k] != [] && toks[..k][0] == toks[0] && toks[..k][1..] == toks[1..][..j]
  {
  }

  /** One more name at the end of a path is one more lookup. */
  lemma ResolveName(t: Tables, a: seq<string>, cur: nat, name: string)
    requires PlainName(name) && Resolve(t, ROOT, a) == At(cur)
    ensures Resolve(t, ROOT, a + [name]) == var id := Lookup(t, name, cur); if id == 0 then Missing else At(id)
  {
    ResolveConcat(t, ROOT, a, [name]);
    assert [name][1..] == [];
  }

  lemma ResolvePrefix(t: Tables, a: seq<string>, b: seq<string>)
    requires Resolve(t, ROOT, a + b).At?
    ensures Resolve(t, ROOT, a).At?
  {
    ResolveConcat(t, ROOT, a, b);
  }

  lemma LastPlain(stack: seq<string>)
    requires AllPlain(stack) && stack != []
    ensures AllPlain(Pop(stack)) && PlainName(stack[|stack| - 1]) && stack == Pop(stack) + [stack[|stack| - 1]]
  {
  }

  /** Stepping down by a name and up again is staying. */
  lemma LastStep(t: Tables, stack: seq<string>, cur: nat)
    requires Base(t) && AllPlain(stack) && stack != [] && Resolve(t, ROOT, stack) == At(cur)
    ensures cur in t.nodes && cur != ROOT
    ensures Resolve(t, ROOT, Pop(stack)) == At(t.nodes[cur].parent)
    ensures t.nodes[cur].name == stack[|stack| - 1]
  {
    var front, name := Pop(stack), stack[|stack| - 1];
    LastPlain(stack);
    ResolvePrefix(t, front, [name]);
    var p := Resolve(t, ROOT, front).node;
    ResolvedIsPositive(t, ROOT, front);
    ResolveName(t, front, p, name);
    LookupSound(t, name, p);
  }

  lemma {:induction false} ReduceResolves(t: Tables, stack: seq<string>, cur: nat, toks: seq<string>)
    requires Base(t) && AllPlain(stack) && Resolve(t, ROOT, stack) == At(cur)
    requires AllClean(toks, '/') && Resolve(t, cur, toks).At?
    ensures Resolve(t, ROOT, Reduce(stack, toks)) == Resolve(t, cur, toks)
    ensures AllPlain(Reduce(stack, toks))
    decreases |toks|
  {
    if toks != [] {
      if toks[0] == "." {
        ReduceResolves(t, stack, cur, toks[1..]);
      } else if toks[0] == ".." {
        LastStep(t, stack, cur);
        ReduceResolves(t, Pop(stack), t.nodes[cur].parent, toks[1..]);
      } else {
        assert Clean(toks[0], '/');
        ResolveConcat(t, ROOT, stack, [toks[0]]);
        ReduceResolves(t, stack + [toks[0]], Lookup(t, toks[0], cur), toks[1..]);
      }
    }
  }

  /** Whatever the tables went through, a path that find resolves is resolved to the same node
      after lexical normalisation. */
  lemma FindNormalized(t: Tables, path: string, flag: bool, now: string)
    requires Base(t)
    requires Find(t, path, flag, Look, now).Reached? && Find(t, path, flag, Look, now).node != 0
    ensures var normal := Normalize(Tokens(path, '/'));
            && AllPlain(normal)
            && Find(t, PathText(normal), flag, Look, now).Reached?
            && Find(t, PathText(normal), flag, Look, now).node == Find(t, path, flag, Look, now).node
  {
    var toks := Tokens(path, '/');
    TokensAreClean(path, '/');
    LookIsResolve(t, ROOT, flag, toks, now);
    ReduceResolves(t, [], ROOT, toks);
    var normal := Normalize(toks);
    assert AllClean(normal, '/');
    TokensOfPathText(normal);
    LookIsResolve(t, ROOT, flag, normal, now);
    ResolvedIsPositive(t, ROOT, toks);
  }

  // ------------------------------------------------------------------- canonical paths

  /** The names on the way from the root to a live node. */
  function PathOf(t: Tables, id: nat): seq<string>
    requires Tree(t) && id in t.nodes
    decreases id
  {
    if id == ROOT then []
    else
      assert HasParent(t, id) && RowOk(id, t.nodes[id], t.next);
      PathOf(t, t.nodes[id].parent) + [t.nodes[id].name]
  }

  lemma {:induction false} PathOfResolves(t: Tables, id: nat)
    requires Tree(t) && id in t.nodes
    ensures AllPlain(PathOf(t, id)) && Resolve(t, ROOT, PathOf(t, id)) == At(id)
    decreases id
  {
    if id != ROOT {
      assert HasParent(t, id) && RowOk(id, t.nodes[id], t.next);
      var p, name := t.nodes[id].parent, t.nodes[id].name;
      PathOfResolves(t, p);
      ResolveConcat(t, ROOT, PathOf(t, p), [name]);
      LookupIs(t, name, p, id);
      assert Resolve(t, p, [name]) == At(id);
    }
  }

  lemma {:induction false} ReduceIsPathOf(t: Tables, cur: nat, toks: seq<string>)
    requires Tree(t) && cur in t.nodes && AllClean(toks, '/') && Resolve(t, cur, toks).At?
    ensures Resolve(t, cur, toks).node in t.nodes
    ensures Reduce(PathOf(t, cur), toks) == PathOf(t, Resolve(t, cur, toks).node)
    decreases |toks|
  {
    if toks != [] {
      if toks[0] == "." {
        ReduceIsPathOf(t, cur, toks[1..]);
      } else if toks[0] == ".." {
        assert HasParent(t, cur);
        ReduceIsPathOf(t, t.nodes[cur].parent, toks[1..]);
      } else {
        var id := Lookup(t, toks[0], cur);
        assert RowOk(cur, t.nodes[cur], t.next);
        LookupSound(t, toks[0], cur);
        ReduceIsPathOf(t, id, toks[1..]);
      }
    }
  }

  /** In a tree, two paths that resolve denote the same node exactly when they normalise to the
      same text; and the normal form is the node's own chain of names. */
  lemma SameNodeIffSameNormalForm(t: Tables, p: seq<string>, q: seq<string>)
    requires Tree(t) && AllClean(p, '/') && AllClean(q, '/')
    requires Resolve(t, ROOT, p).At? && Resolve(t, ROOT, q).At?
    ensures Resolve(t, ROOT, p).node in t.nodes && Normalize(p) == PathOf(t, Resolve(t, ROOT, p).node)
    ensures Resolve(t, ROOT, p) == Resolve(t, ROOT, q) <==> Normalize(p) == Normalize(q)
  {
    ReduceIsPathOf(t, ROOT, p);
    ReduceIsPathOf(t, ROOT, q);
    PathOfResolves(t, Resolve(t, ROOT, p).node);
    PathOfResolves(t, Resolve(t, ROOT, q).node);
  }

  /** In a tree a path that resolves ends at the root exactly when nothing of it is left. */
  lemma RootIffNothingLeft(t: Tables, p: seq<string>)
    requires Tree(t) && AllClean(p, '/') && Resolve(t, ROOT, p).At?
    ensures Resolve(t, ROOT, p).node == ROOT <==> Normalize(p) == []
  {
    ReduceIsPathOf(t, ROOT, p);
  }
}
