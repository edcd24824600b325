/** What a creating walk adds to the tables (create with parents, like mkdir -p), and the
    exact conditions under which the is_dir flag and the tree shape survive. */
module Growth {
  import opened Errors
  import opened Schema
  import opened Text
  import opened Walk

  // --------------------------------------------------------------- tables that only grew

  /** Metadata rows that were there keep their place and, utime stamps aside, their value. */
  predicate MetaGrown(was: seq<MetaRow>, cur: seq<MetaRow>, next: nat) {
    && |was| <= |cur|
    && (forall i | 0 <= i < |was| ::
          cur[i] == was[i] || (was[i].key == "utime" && cur[i] == was[i].(value := cur[i].value)))
    && (forall i | |was| <= i < |cur| :: cur[i].node >= next)
  }

  predicate Grown(t: Tables, t': Tables) {
    && t.next <= t'.next && t'.data == t.data
    && (forall i | i in t.nodes :: i in t'.nodes && t'.nodes[i] == t.nodes[i])
    && (forall i | i in t'.nodes :: i in t.nodes || t.next <= i)
    && MetaGrown(t.meta, t'.meta, t.next)
  }

  lemma GrownTransitive(a: Tables, b: Tables, c: Tables)
    requires Grown(a, b) && Grown(b, c)
    ensures Grown(a, c)
  {
  }

  lemma InsertGrows(t: Tables, name: string, parent: nat, isDir: bool, now: string)
    requires Base(t)
    ensures Grown(t, InsertNode(t, name, parent, isDir, now))
  {
    forall i | i in t.nodes ensures i < t.next { assert RowOk(i, t.nodes[i], t.next); }
  }

  /** Every path that resolved before still resolves to the same node. */
  lemma {:induction false} OldPathsKept(t: Tables, t': Tables, cur: nat, toks: seq<string>)
    requires Base(t) && Base(t') && Grown(t, t') && cur != 0 && Resolve(t, cur, toks).At?
    ensures Resolve(t', cur, toks) == Resolve(t, cur, toks)
    decreases |toks|
  {
    if toks != [] {
      if toks[0] == "." {
        OldPathsKept(t, t', cur, toks[1..]);
      } else if toks[0] == ".." {
        assert RowOk(cur, t.nodes[cur], t.next);
        OldPathsKept(t, t', t.nodes[cur].parent, toks[1..]);
      } else {
        LookupSound(t, toks[0], cur);
        var id := Lookup(t, toks[0], cur);
        LookupIs(t', toks[0], cur, id);
        OldPathsKept(t, t', id, toks[1..]);
      }
    }
  }

  // ------------------------------------------------------------------- the creating walk

  lemma {:induction false} MakeGrows(t: Tables, cur: nat, flag: bool, toks: seq<string>, mode: Mode, now: string)
    requires Base(t) && 1 <= cur < t.next && AllClean(toks, '/')
    requires WalkFrom(t, cur, flag, toks, mode, now).Reached?
    ensures var w := WalkFrom(t, cur, flag, toks, mode, now);
            Base(w.t) && Grown(t, w.t) && w.node < w.t.next && (mode.Make? ==> w.node != 0)
    decreases |toks|
  {
    if toks != [] {
      var entry, rest := toks[0], toks[1..];
      if entry == "." {
        MakeGrows(t, cur, flag, rest, mode, now);
      } else if entry == ".." {
        assert RowOk(cur, t.nodes[cur], t.next);
        MakeGrows(t, t.nodes[cur].parent, flag, rest, mode, now);
      } else {
        var id := Lookup(t, entry, cur);
        if id != 0 {
          LookupSound(t, entry, cur);
          MakeGrows(t, id, t.nodes[id].isDir, rest, mode, now);
        } else if mode.Make? {
          assert Clean(entry, '/');
          var isDir := mode.dir || !IsLast(rest);
          var t1 := InsertNode(t, entry, cur, isDir, now);
          InsertKeepsBase(t, entry, cur, isDir, now);
          InsertGrows(t, entry, cur, isDir, now);
          MakeGrows(t1, t.next, isDir, rest, mode, now);
          GrownTransitive(t, t1, WalkFrom(t1, t.next, isDir, rest, mode, now).t);
        }
      }
    }
  }

  /** In the tables a creating walk leaves behind, the path resolves to the node it returned and
      find reports the flag it returned. */
  lemma {:induction false} MakeResolves(t: Tables, cur: nat, flag: bool, toks: seq<string>, mode: Mode, now: string)
    requires Base(t) && 1 <= cur < t.next && AllClean(toks, '/') && mode.Make?
    requires WalkFrom(t, cur, flag, toks, mode, now).Reached?
    ensures var w := WalkFrom(t, cur, flag, toks, mode, now);
            && Resolve(w.t, cur, toks) == At(w.node)
            && w.isDir == (FlagAfter(w.t, cur, flag, toks) || w.node == ROOT)
    decreases |toks|
  {
    if toks != [] {
      var entry, rest := toks[0], toks[1..];
      MakeGrows(t, cur, flag, toks, mode, now);
      var t' := WalkFrom(t, cur, flag, toks, mode, now).t;
      if entry == "." {
        MakeResolves(t, cur, flag, rest, mode, now);
      } else if entry == ".." {
        assert RowOk(cur, t.nodes[cur], t.next);
        MakeResolves(t, t.nodes[cur].parent, flag, rest, mode, now);
      } else {
        var id := Lookup(t, entry, cur);
        if id != 0 {
          LookupSound(t, entry, cur);
          LookupIs(t', entry, cur, id);
          MakeResolves(t, id, t.nodes[id].isDir, rest, mode, now);
        } else {
          assert Clean(entry, '/');
          var isDir := mode.dir || !IsLast(rest);
          var t1 := InsertNode(t, entry, cur, isDir, now);
          InsertKeepsBase(t, entry, cur, isDir, now);
          MakeGrows(t1, t.next, isDir, rest, mode, now);
          LookupIs(t', entry, cur, t.next);
          MakeResolves(t1, t.next, isDir, rest, mode, now);
        }
      }
    }
  }

  /** Once every component is there, create arguments make no difference: find only walks. */
  lemma {:induction false} FoundIsLook(t: Tables, cur: nat, flag: bool, toks: seq<string>, mode: Mode, now: string)
    requires Base(t) && cur != 0 && Resolve(t, cur, toks).At?
    ensures WalkFrom(t, cur, flag, toks, mode, now) == WalkFrom(t, cur, flag, toks, Look, now)
    decreases |toks|
  {
    if toks != [] {
      if toks[0] == "." {
        FoundIsLook(t, cur, flag, toks[1..], mode, now);
      } else if toks[0] == ".." {
        assert RowOk(cur, t.nodes[cur], t.next);
        FoundIsLook(t, t.nodes[cur].parent, flag, toks[1..], mode, now);
      } else {
        var id := Lookup(t, toks[0], cur);
        FoundIsLook(t, id, t.nodes[id].isDir, toks[1..], mode, now);
      }
    }
  }

  /** The walk reaches node i for the first time after k components. */
  predicate FirstReached(t: Tables, cur: nat, toks: seq<string>, i: nat, k: nat) {
    && k <= |toks| && Resolve(t, cur, toks[..k]) == At(i)
    && forall j | 0 <= j < k :: Resolve(t, cur, toks[..j]) != At(i)
  }

  lemma FirstReachedStep(t: Tables, cur: nat, toks: seq<string>, i: nat, j: nat, k: nat)
    requires toks != [] && k == j + 1 && cur != i
    requires var s := Step(t, cur, toks[0]); s.At? && FirstReached(t, s.node, toks[1..], i, j)
    ensures FirstReached(t, cur, toks, i, k) && toks[k..] == toks[1..][j..]
  {
    var s := Step(t, cur, toks[0]);
    forall m | 0 < m <= k ensures Resolve(t, cur, toks[..m]) == Resolve(t, s.node, toks[1..][..m - 1]) {
      PrefixStep(toks, m - 1, m);
      ResolveStep(t, cur, toks[..m]);
    }
    assert Resolve(t, cur, toks[..0]) == At(cur);
  }

  /** New rows lie only along the path. One is a directory exactly if a directory was asked for or, where
      the path first reaches it, more than one "." or some other component follows. */
  lemma {:induction false} NewRowsOnPath(t: Tables, cur: nat, flag: bool, toks: seq<string>, mode: Mode, now: string,
                                         i: nat)
      returns (k: nat)
    requires Base(t) && 1 <= cur < t.next && AllClean(toks, '/') && mode.Make?
    requires WalkFrom(t, cur, flag, toks, mode, now).Reached?
    requires i in WalkFrom(t, cur, flag, toks, mode, now).t.nodes && i !in t.nodes
    ensures var t' := WalkFrom(t, cur, flag, toks, mode, now).t;
            && FirstReached(t', cur, toks, i, k)
            && (t'.nodes[i].isDir <==> mode.dir || (toks[k..] != [] && toks[k..] != ["."]))
    decreases |toks|
  {
    if toks == [] {
      assert false;
    } else {
      var entry, rest := toks[0], toks[1..];
      MakeGrows(t, cur, flag, toks, mode, now);
      var t' := WalkFrom(t, cur, flag, toks, mode, now).t;
      assert t.next <= i;
      var j: nat;
      if entry == "." {
        j := NewRowsOnPath(t, cur, flag, rest, mode, now, i);
      } else if entry == ".." {
        assert RowOk(cur, t.nodes[cur], t.next);
        j := NewRowsOnPath(t, t.nodes[cur].parent, flag, rest, mode, now, i);
      } else {
        var id := Lookup(t, entry, cur);
        if id != 0 {
          LookupSound(t, entry, cur);
          LookupIs(t', entry, cur, id);
          j := NewRowsOnPath(t, id, t.nodes[id].isDir, rest, mode, now, i);
        } else {
          assert Clean(entry, '/');
          var isDir := mode.dir || !IsLast(rest);
          var t1 := InsertNode(t, entry, cur, isDir, now);
          InsertKeepsBase(t, entry, cur, isDir, now);
          MakeGrows(t1, t.next, isDir, rest, mode, now);
          LookupIs(t', entry, cur, t.next);
          if i == t.next {
            j := 0;
            assert rest[..0] == [] && rest[0..] == rest;
          } else {
            j := NewRowsOnPath(t1, t.next, isDir, rest, mode, now, i);
          }
        }
      }
      k := j + 1;
      FirstReachedStep(t', cur, toks, i, j, k);
    }
  }

  /** The kind of every node that a creating find adds. */
  lemma CreatedKind(t: Tables, path: string, flag: bool, parents: bool, dir: bool, now: string, i: nat, k: nat)
    requires Base(t) && Find(t, path, flag, Make(parents, dir), now).Reached?
    requires var t' := Find(t, path, flag, Make(parents, dir), now).t;
             i in t'.nodes && i !in t.nodes && FirstReached(t', ROOT, Tokens(path, '/'), i, k)
    ensures var rest := Tokens(path, '/')[k..];
            Find(t, path, flag, Make(parents, dir), now).t.nodes[i].isDir <==> dir || (rest != [] && rest != ["."])
  {
    var toks, mode := Tokens(path, '/'), Make(parents, dir);
    TokensAreClean(path, '/');
    var m := NewRowsOnPath(t, ROOT, flag, toks, mode, now, i);
    assert m == k;
  }

  /** A new row that has new rows below it is a directory. */
  lemma {:induction false} NewParentIsDirectory(t: Tables, cur: nat, flag: bool, toks: seq<string>, mode: Mode,
                                                now: string, i: nat, j: nat)
    requires Base(t) && 1 <= cur < t.next && AllClean(toks, '/') && mode.Make?
    requires WalkFrom(t, cur, flag, toks, mode, now).Reached?
    requires var t' := WalkFrom(t, cur, flag, toks, mode, now).t;
             i in t'.nodes && i !in t.nodes && j in t'.nodes && j !in t.nodes && t'.nodes[j].parent == i
    ensures WalkFrom(t, cur, flag, toks, mode, now).t.nodes[i].isDir
    decreases |toks|
  {
    if toks != [] {
      var entry, rest := toks[0], toks[1..];
      MakeGrows(t, cur, flag, toks, mode, now);
      var t' := WalkFrom(t, cur, flag, toks, mode, now).t;
      if entry == "." {
        NewParentIsDirectory(t, cur, flag, rest, mode, now, i, j);
      } else if entry == ".." {
        assert RowOk(cur, t.nodes[cur], t.next);
        NewParentIsDirectory(t, t.nodes[cur].parent, flag, rest, mode, now, i, j);
      } else {
        var id := Lookup(t, entry, cur);
        if id != 0 {
          LookupSound(t, entry, cur);
          NewParentIsDirectory(t, id, t.nodes[id].isDir, rest, mode, now, i, j);
        } else {
          assert Clean(entry, '/');
          var isDir := mode.dir || !IsLast(rest);
          var t1 := InsertNode(t, entry, cur, isDir, now);
          InsertKeepsBase(t, entry, cur, isDir, now);
          MakeGrows(t1, t.next, isDir, rest, mode, now);
          assert RowOk(j, t'.nodes[j], t'.next);
          if i == t.next {
            if rest == ["."] { assert rest[1..] == []; }
          } else {
            NewParentIsDirectory(t1, t.next, isDir, rest, mode, now, i, j);
          }
        }
      }
    }
  }

  /** Where a path that is missing breaks off: the part that leads somewhere, the name that is not there, the
      rest. */
  datatype Gap = Gap(before: seq<string>, parent: nat, name: string, rest: seq<string>)

  function GapOf(t: Tables, cur: nat, toks: seq<string>): (g: Gap)
    requires Resolve(t, cur, toks).Missing?
    ensures toks == g.before + [g.name] + g.rest && Resolve(t, cur, g.before) == At(g.parent)
    ensures g.name != "." && g.name != ".." && Lookup(t, g.name, g.parent) == 0
    decreases |toks|
  {
    assert toks == [toks[0]] + toks[1..];
    var s := Step(t, cur, toks[0]);
    if s.At? then
      var g := GapOf(t, s.node, toks[1..]);
      var before := [toks[0]] + g.before;
      assert before[1..] == g.before;
      Gap(before, g.parent, g.name, g.rest)
    else Gap([], cur, toks[0], toks[1..])
  }

  /** A create without parents, exactly: on a path that is there it changes nothing; where only the last
      component is missing, one trailing "." forgiven, it adds one row of the kind asked for; else it throws. */
  lemma {:induction false} MakeWithoutParents(t: Tables, cur: nat, flag: bool, toks: seq<string>, dir: bool,
                                              now: string)
    ensures var w := WalkFrom(t, cur, flag, toks, Make(false, dir), now);
            match Resolve(t, cur, toks)
            case At(n) => w.Reached? && w.t == t && w.node == n
            case Stuck(e) => w == Thrown(e)
            case Missing =>
              var g := GapOf(t, cur, toks);
              if g.rest == [] || g.rest == ["."] then
                w == Reached(InsertNode(t, g.name, g.parent, dir, now), t.next, dir || t.next == ROOT)
              else w == Thrown(NO_SUCCESS)
    decreases |toks|
  {
    if toks != [] {
      var s, rest := Step(t, cur, toks[0]), toks[1..];
      if s.At? {
        var named := toks[0] != "." && toks[0] != "..";
        MakeWithoutParents(t, s.node, if named then t.nodes[s.node].isDir else flag, rest, dir, now);
      } else if s.Missing? {
        assert GapOf(t, cur, toks) == Gap([], cur, toks[0], rest);
        var t1 := InsertNode(t, toks[0], cur, dir, now);
        if IsLast(rest) {
          var w := Reached(t1, t.next, dir || t.next == ROOT);
          assert WalkFrom(t1, t.next, dir, [], Make(false, dir), now) == w;
          assert rest != [] ==> rest[1..] == [];
          assert WalkFrom(t1, t.next, dir, rest, Make(false, dir), now) == w;
        }
      }
    }
  }

  /** Some prefix of the path leads to node i. */
  predicate OnPath(t: Tables, toks: seq<string>, i: nat) {
    exists k | 0 <= k <= |toks| :: Resolve(t, ROOT, toks[..k]) == At(i)
  }

  /** No row is added, or one below a node that was there. */
  predicate AtMostOneAdded(t: Tables, t': Tables) {
    && t'.next <= t.next + 1
    && forall i | i in t'.nodes && i !in t.nodes ::
         i == t.next && (t'.nodes[i].parent == ROOT || t'.nodes[i].parent in t.nodes)
  }

  /** New rows with new rows below them are directories. */
  predicate NewParentsAreDirectories(t: Tables, t': Tables) {
    forall i, j | i in t'.nodes && j in t'.nodes && i !in t.nodes && j !in t.nodes && t'.nodes[j].parent == i ::
      t'.nodes[i].isDir
  }

  lemma EndIsThere(t: Tables, toks: seq<string>)
    requires Base(t) && AllClean(toks, '/') && Resolve(t, ROOT, toks).At?
    ensures Resolve(t, ROOT, toks).node == ROOT || Resolve(t, ROOT, toks).node in t.nodes
  {
    ReduceResolves(t, [], ROOT, toks);
    if Normalize(toks) != [] { LastStep(t, Normalize(toks), Resolve(t, ROOT, toks).node); }
  }

  lemma WithoutParentsAddsOne(t: Tables, flag: bool, toks: seq<string>, dir: bool, now: string)
    requires Base(t) && AllClean(toks, '/') && WalkFrom(t, ROOT, flag, toks, Make(false, dir), now).Reached?
    ensures AtMostOneAdded(t, WalkFrom(t, ROOT, flag, toks, Make(false, dir), now).t)
  {
    MakeWithoutParents(t, ROOT, flag, toks, dir, now);
    if Resolve(t, ROOT, toks).Missing? {
      var g := GapOf(t, ROOT, toks);
      forall x | x in g.before ensures Clean(x, '/') { assert x in toks; }
      EndIsThere(t, g.before);
    }
  }

  /** mkdir -p: when a creating find succeeds, the path resolves to the node it returned and
      reports the flag it returned, every path that resolved before still resolves to the same
      node, every other row stays, new rows lie only along the path, those with new rows below them are
      directories, and doing it again changes nothing. Without create_parents at most one row is added. */
  lemma MakeIsMkdirP(t: Tables, path: string, flag: bool, parents: bool, dir: bool, now: string, later: string)
    requires Base(t) && Find(t, path, flag, Make(parents, dir), now).Reached?
    ensures var w := Find(t, path, flag, Make(parents, dir), now);
            var toks := Tokens(path, '/');
            && Base(w.t) && Grown(t, w.t) && w.node != 0
            && Find(w.t, path, flag, Look, later) == w
            && Find(w.t, path, flag, Make(parents, dir), later) == w
            && (forall p: seq<string> :: Resolve(t, ROOT, p).At? ==> Resolve(w.t, ROOT, p) == Resolve(t, ROOT, p))
            && (forall i | i in w.t.nodes && i !in t.nodes :: OnPath(w.t, toks, i))
            && NewParentsAreDirectories(t, w.t)
            && (!parents ==> AtMostOneAdded(t, w.t))
  {
    var toks, mode := Tokens(path, '/'), Make(parents, dir);
    TokensAreClean(path, '/');
    MakeGrows(t, ROOT, flag, toks, mode, now);
    MakeResolves(t, ROOT, flag, toks, mode, now);
    var w := Find(t, path, flag, mode, now);
    FoundIsLook(w.t, ROOT, flag, toks, mode, later);
    LookIsResolve(w.t, ROOT, flag, toks, later);
    forall p: seq<string> | Resolve(t, ROOT, p).At?
      ensures Resolve(w.t, ROOT, p) == Resolve(t, ROOT, p)
    {
      OldPathsKept(t, w.t, ROOT, p);
    }
    forall i | i in w.t.nodes && i !in t.nodes
      ensures OnPath(w.t, toks, i)
    {
      var k := NewRowsOnPath(t, ROOT, flag, toks, mode, now, i);
      assert Resolve(w.t, ROOT, toks[..k]) == At(i);
    }
    forall i, j | i in w.t.nodes && j in w.t.nodes && i !in t.nodes && j !in t.nodes && w.t.nodes[j].parent == i
      ensures w.t.nodes[i].isDir
    {
      NewParentIsDirectory(t, ROOT, flag, toks, mode, now, i, j);
    }
    if !parents { WithoutParentsAddsOne(t, flag, toks, dir, now); }
  }

  // --------------------------------------------------- whether a creating find ends on an old node

  /** A node that was there before was reached by the same names before. */
  lemma {:induction false} OldEndHasOldPath(t: Tables, t': Tables, names: seq<string>, n: nat)
    requires Base(t) && Base(t') && Grown(t, t') && AllPlain(names)
    requires Resolve(t', ROOT, names) == At(n) && n < t.next
    ensures Resolve(t, ROOT, names) == At(n)
    decreases |names|
  {
    if names != [] {
      LastStep(t', names, n);
      LastPlain(names);
      var p, name := t'.nodes[n].parent, names[|names| - 1];
      assert RowOk(n, t.nodes[n], t.next);
      OldEndHasOldPath(t, t', Pop(names), p);
      ResolveName(t, Pop(names), p, name);
      LookupIs(t, name, p, n);
    }
  }

  /** A creating find ends on a node that had been there, whether or not it created others on its way, exactly if
      its path led there once every name/.. in it is cancelled. */
  lemma EndIsOldIff(t: Tables, path: string, flag: bool, parents: bool, dir: bool, now: string)
    requires Base(t) && Find(t, path, flag, Make(parents, dir), now).Reached?
    ensures var w, p := Find(t, path, flag, Make(parents, dir), now), Resolve(t, ROOT, Normalize(Tokens(path, '/')));
            && (w.node < t.next <==> p.At?) && (p.At? ==> p == At(w.node))
            && (Tree(t) ==> (w.node in t.nodes <==> w.node < t.next))
  {
    var toks, mode := Tokens(path, '/'), Make(parents, dir);
    TokensAreClean(path, '/');
    MakeGrows(t, ROOT, flag, toks, mode, now);
    MakeResolves(t, ROOT, flag, toks, mode, now);
    var w := Find(t, path, flag, mode, now);
    ReduceResolves(w.t, [], ROOT, toks);
    var names := Normalize(toks);
    if w.node < t.next { OldEndHasOldPath(t, w.t, names, w.node); }
    if Resolve(t, ROOT, names).At? {
      OldPathsKept(t, w.t, ROOT, names);
      EndIsBelowNext(t, names);
      if Tree(t) { ReduceIsPathOf(t, ROOT, names); }
    }
    if w.node in t.nodes { assert RowOk(w.node, t.nodes[w.node], t.next); }
  }

  lemma EndIsBelowNext(t: Tables, names: seq<string>)
    requires Base(t) && AllPlain(names) && Resolve(t, ROOT, names).At?
    ensures Resolve(t, ROOT, names).node < t.next
  {
    if names != [] {
      LastStep(t, names, Resolve(t, ROOT, names).node);
      assert RowOk(Resolve(t, ROOT, names).node, t.nodes[Resolve(t, ROOT, names).node], t.next);
    }
  }

  // ------------------------------------------------------------ when the tree shape is kept

  /** Wherever the walk inserts a node, the node it stands on is a directory. find itself never
      looks. */
  predicate InsertsUnderDirs(t: Tables, cur: nat, toks: seq<string>, mode: Mode, now: string)
    decreases |toks|
  {
    if toks == [] then true
    else
      var entry, rest := toks[0], toks[1..];
      if entry == "." then InsertsUnderDirs(t, cur, rest, mode, now)
      else if entry == ".." then
        cur == ROOT || cur !in t.nodes || InsertsUnderDirs(t, t.nodes[cur].parent, rest, mode, now)
      else
        var id := Lookup(t, entry, cur);
        if id != 0 then InsertsUnderDirs(t, id, rest, mode, now)
        else if mode.Look? || (!mode.parents && !IsLast(rest)) then true
        else
          && cur in t.nodes && t.nodes[cur].isDir
          && InsertsUnderDirs(InsertNode(t, entry, cur, mode.dir || !IsLast(rest), now), t.next, rest, mode, now)
  }

  lemma InsertKeepsTree(t: Tables, name: string, parent: nat, isDir: bool, now: string)
    requires Tree(t) && Lookup(t, name, parent) == 0 && PlainName(name) && parent in t.nodes && t.nodes[parent].isDir
    ensures Tree(InsertNode(t, name, parent, isDir, now))
  {
    assert RowOk(parent, t.nodes[parent], t.next);
    InsertKeepsBase(t, name, parent, isDir, now);
    var t' := InsertNode(t, name, parent, isDir, now);
    InsertGrows(t, name, parent, isDir, now);
    forall i | i in t'.nodes && i != ROOT ensures HasParent(t', i) {
      if i != t.next { assert HasParent(t, i); }
    }
  }

  /** A creating walk keeps the tree exactly when it inserts under directories only. */
  lemma {:induction false} MakeKeepsTreeIff(t: Tables, cur: nat, flag: bool, toks: seq<string>, mode: Mode, now: string)
    requires Tree(t) && cur in t.nodes && AllClean(toks, '/')
    requires WalkFrom(t, cur, flag, toks, mode, now).Reached?
    ensures Tree(WalkFrom(t, cur, flag, toks, mode, now).t) <==> InsertsUnderDirs(t, cur, toks, mode, now)
    decreases |toks|
  {
    assert RowOk(cur, t.nodes[cur], t.next);
    if toks != [] {
      var entry, rest := toks[0], toks[1..];
      if entry == "." {
        MakeKeepsTreeIff(t, cur, flag, rest, mode, now);
      } else if entry == ".." {
        assert HasParent(t, cur);
        MakeKeepsTreeIff(t, t.nodes[cur].parent, flag, rest, mode, now);
      } else {
        var id := Lookup(t, entry, cur);
        if id != 0 {
          MakeKeepsTreeIff(t, id, t.nodes[id].isDir, rest, mode, now);
        } else if mode.Make? {
          assert Clean(entry, '/');
          var isDir := mode.dir || !IsLast(rest);
          var t1 := InsertNode(t, entry, cur, isDir, now);
          InsertKeepsBase(t, entry, cur, isDir, now);
          if t.nodes[cur].isDir {
            InsertKeepsTree(t, entry, cur, isDir, now);
            MakeKeepsTreeIff(t1, t.next, isDir, rest, mode, now);
          } else {
            MakeGrows(t1, t.next, isDir, rest, mode, now);
            var t' := WalkFrom(t1, t.next, isDir, rest, mode, now).t;
            assert t1.nodes[t.next].parent == cur && !t1.nodes[cur].isDir;
            assert !HasParent(t', t.next);
          }
        }
      }
    }
  }

  // -------------------------------------------------------------- when the flag is right

  predicate Dot(x: string) { x == "." || x == ".." }

  /** The path up to and including its last named component. */
  function Head(toks: seq<string>): (r: seq<string>)
    ensures |r| <= |toks|
  {
    if toks == [] then []
    else
      var n := |toks| - 1;
      if Dot(toks[n]) then Head(toks[..n]) else toks
  }

  /** What is left consists of "." and "..". */
  lemma {:induction false} HeadSplits(toks: seq<string>, head: seq<string>, tail: seq<string>)
    requires head == Head(toks) && tail == toks[|head|..]
    ensures toks == head + tail
    ensures forall x | x in tail :: Dot(x)
    ensures head != [] ==> !Dot(head[|head| - 1])
  {
    if toks != [] && Dot(toks[|toks| - 1]) {
      var front, last := toks[..|toks| - 1], toks[|toks| - 1];
      var rest := front[|head|..];
      HeadSplits(front, head, rest);
      TailSnoc(toks, front, last, |head|);
      Associative(head, rest, [last]);
      assert Dot(last);
    }
  }

  lemma TailSnoc(toks: seq<string>, front: seq<string>, last: string, n: nat)
    requires toks != [] && front == toks[..|toks| - 1] && last == toks[|toks| - 1] && n <= |front|
    ensures toks == front + [last] && toks[n..] == front[n..] + [last]
  {
  }

  lemma {:induction false} FlagOfDots(t: Tables, cur: nat, flag: bool, dots: seq<string>)
    requires Resolve(t, cur, dots).At? && forall x | x in dots :: Dot(x)
    ensures FlagAfter(t, cur, flag, dots) == flag
    decreases |dots|
  {
    if dots != [] {
      assert Dot(dots[0]);
      FlagOfDots(t, if dots[0] == "." then cur else t.nodes[cur].parent, flag, dots[1..]);
    }
  }

  /** The flag after the whole path is the stored flag of the last named node. */
  lemma {:induction false} FlagOfHead(t: Tables, cur: nat, flag: bool, a: seq<string>, dots: seq<string>)
    requires Resolve(t, cur, a + dots).At? && forall x | x in dots :: Dot(x)
    requires a != [] ==> !Dot(a[|a| - 1])
    ensures Resolve(t, cur, a).At?
    ensures a != [] ==> Resolve(t, cur, a).node in t.nodes
    ensures FlagAfter(t, cur, flag, a + dots) == if a == [] then flag else t.nodes[Resolve(t, cur, a).node].isDir
    decreases |a|
  {
    if a == [] {
      assert a + dots == dots;
      FlagOfDots(t, cur, flag, dots);
    } else {
      assert (a + dots)[1..] == a[1..] + dots && (a + dots)[0] == a[0];
      if a[0] == "." {
        FlagOfHead(t, cur, flag, a[1..], dots);
      } else if a[0] == ".." {
        FlagOfHead(t, t.nodes[cur].parent, flag, a[1..], dots);
      } else {
        var id := Lookup(t, a[0], cur);
        FlagOfHead(t, id, t.nodes[id].isDir, a[1..], dots);
      }
    }
  }

  lemma {:induction false} ClimbEndsInDir(t: Tables, cur: nat, dots: seq<string>)
    requires Tree(t) && cur in t.nodes && Resolve(t, cur, dots).At? && forall x | x in dots :: Dot(x)
    ensures var n := Resolve(t, cur, dots).node;
            n in t.nodes && (if ".." in dots || t.nodes[cur].isDir then t.nodes[n].isDir else n == cur)
    decreases |dots|
  {
    if dots != [] {
      assert Dot(dots[0]);
      if dots[0] == "." {
        ClimbEndsInDir(t, cur, dots[1..]);
      } else {
        assert HasParent(t, cur);
        ClimbEndsInDir(t, t.nodes[cur].parent, dots[1..]);
      }
    }
  }

  /** The path climbs with ".." out of a leaf it named last. */
  predicate ClimbsFromLeaf(t: Tables, toks: seq<string>) {
    var head := Head(toks);
    && ".." in toks[|head|..]
    && Resolve(t, ROOT, head).At?
    && var m := Resolve(t, ROOT, head).node; m in t.nodes && !t.nodes[m].isDir
  }

  /** find's is_dir is the stored flag of the node it returns, exactly unless the path climbs out
      of a leaf and ends below the root. */
  lemma FlagRightIff(t: Tables, path: string, now: string)
    requires Tree(t) && Find(t, path, false, Look, now).Reached? && Find(t, path, false, Look, now).node != 0
    ensures var w := Find(t, path, false, Look, now);
            && w.node in t.nodes
            && (w.isDir == t.nodes[w.node].isDir <==>
                Normalize(Tokens(path, '/')) == [] || !ClimbsFromLeaf(t, Tokens(path, '/')))
  {
    var toks := Tokens(path, '/');
    TokensAreClean(path, '/');
    LookIsResolve(t, ROOT, false, toks, now);
    FlagRight(t, toks);
    RootIffNothingLeft(t, toks);
  }

  lemma FlagRight(t: Tables, toks: seq<string>)
    requires Tree(t) && AllClean(toks, '/') && Resolve(t, ROOT, toks).At?
    ensures var n := Resolve(t, ROOT, toks).node;
            && n in t.nodes
            && ((FlagAfter(t, ROOT, false, toks) || n == ROOT) == t.nodes[n].isDir <==>
                n == ROOT || !ClimbsFromLeaf(t, toks))
  {
    var m, n := HeadAndEnd(t, toks);
  }

  lemma LiveEnd(t: Tables, head: seq<string>, tail: seq<string>)
    requires Tree(t) && AllClean(head + tail, '/') && Resolve(t, ROOT, head).At?
    ensures Resolve(t, ROOT, head).node in t.nodes
  {
    forall x | x in head ensures Clean(x, '/') { assert x in head + tail; }
    ReduceIsPathOf(t, ROOT, head);
  }

  lemma HeadAndEnd(t: Tables, toks: seq<string>) returns (m: nat, n: nat)
    requires Tree(t) && AllClean(toks, '/') && Resolve(t, ROOT, toks).At?
    ensures Resolve(t, ROOT, Head(toks)) == At(m) && Resolve(t, ROOT, toks) == At(n)
    ensures m in t.nodes && n in t.nodes
    ensures if ".." in toks[|Head(toks)|..] || t.nodes[m].isDir then t.nodes[n].isDir else n == m
    ensures FlagAfter(t, ROOT, false, toks) == (Head(toks) != [] && t.nodes[m].isDir)
    ensures ROOT in t.nodes && t.nodes[ROOT].isDir && (Head(toks) == [] ==> n == ROOT)
    ensures ClimbsFromLeaf(t, toks) <==> ".." in toks[|Head(toks)|..] && !t.nodes[m].isDir
  {
    var head := Head(toks);
    var tail := toks[|head|..];
    HeadSplits(toks, head, tail);
    m, n := EndOfHead(t, head, tail);
  }

  lemma EndOfHead(t: Tables, head: seq<string>, tail: seq<string>) returns (m: nat, n: nat)
    requires Tree(t) && AllClean(head + tail, '/') && Resolve(t, ROOT, head + tail).At?
    requires (forall x | x in tail :: Dot(x)) && (head != [] ==> !Dot(head[|head| - 1]))
    ensures Resolve(t, ROOT, head) == At(m) && Resolve(t, ROOT, head + tail) == At(n)
    ensures m in t.nodes && n in t.nodes
    ensures if ".." in tail || t.nodes[m].isDir then t.nodes[n].isDir else n == m
    ensures FlagAfter(t, ROOT, false, head + tail) == (head != [] && t.nodes[m].isDir)
    ensures ROOT in t.nodes && t.nodes[ROOT].isDir && (head == [] ==> n == ROOT)
  {
    ResolveConcat(t, ROOT, head, tail);
    FlagOfHead(t, ROOT, false, head, tail);
    m, n := Resolve(t, ROOT, head).node, Resolve(t, ROOT, head + tail).node;
    LiveEnd(t, head, tail);
    ClimbEndsInDir(t, m, tail);
    if head == [] { DotsStayAtRoot(t, tail); }
  }

  lemma {:induction false} DotsStayAtRoot(t: Tables, dots: seq<string>)
    requires Resolve(t, ROOT, dots).At? && forall x | x in dots :: Dot(x)
    ensures Resolve(t, ROOT, dots).node == ROOT
    decreases |dots|
  {
    if dots != [] {
      assert Dot(dots[0]);
      DotsStayAtRoot(t, dots[1..]);
    }
  }

  // ------------------------------------------------------------------- the hypothesis H

  /** The walk takes no step by a name or by ".." from a leaf. */
  predicate NoStepPastLeaf(t: Tables, cur: nat, toks: seq<string>, mode: Mode, now: string)
    decreases |toks|
  {
    if toks == [] then true
    else
      var entry, rest := toks[0], toks[1..];
      if entry == "." then NoStepPastLeaf(t, cur, rest, mode, now)
      else
        && cur in t.nodes && t.nodes[cur].isDir
        && if entry == ".." then cur == ROOT || NoStepPastLeaf(t, t.nodes[cur].parent, rest, mode, now)
           else
             var id := Lookup(t, entry, cur);
             if id != 0 then NoStepPastLeaf(t, id, rest, mode, now)
             else if mode.Look? || (!mode.parents && !IsLast(rest)) then true
             else NoStepPastLeaf(InsertNode(t, entry, cur, mode.dir || !IsLast(rest), now), t.next, rest, mode, now)
  }

  /** Wherever the path goes on by a name or by "..", it goes on from a directory. */
  predicate GoesThroughDirs(u: Tables, cur: nat, toks: seq<string>) {
    forall k | 0 <= k < |toks| && toks[k] != "." && Resolve(u, cur, toks[..k]).At? ::
      var n := Resolve(u, cur, toks[..k]).node; n in u.nodes && u.nodes[n].isDir
  }

  lemma GoesThroughStep(u: Tables, cur: nat, toks: seq<string>)
    requires toks != []
    ensures GoesThroughDirs(u, cur, toks) <==>
            && (toks[0] != "." ==> cur in u.nodes && u.nodes[cur].isDir)
            && var s := Step(u, cur, toks[0]); (s.At? ==> GoesThroughDirs(u, s.node, toks[1..]))
  {
    var s := Step(u, cur, toks[0]);
    forall j | 0 <= j < |toks[1..]|
      ensures Resolve(u, cur, toks[..j + 1]) == if s.At? then Resolve(u, s.node, toks[1..][..j]) else s
      ensures toks[j + 1] == toks[1..][j]
    {
      PrefixStep(toks, j, j + 1);
      ResolveStep(u, cur, toks[..j + 1]);
    }
    assert toks[..0] == [];
    if GoesThroughDirs(u, cur, toks) {
      assert toks[0] != "." ==> Resolve(u, cur, toks[..0]) == At(cur);
      if s.At? {
        forall j | 0 <= j < |toks[1..]| && toks[1..][j] != "." && Resolve(u, s.node, toks[1..][..j]).At?
          ensures var n := Resolve(u, s.node, toks[1..][..j]).node; n in u.nodes && u.nodes[n].isDir
        {
          assert toks[j + 1] != "." && Resolve(u, cur, toks[..j + 1]).At?;
        }
      }
    }
    if (toks[0] != "." ==> cur in u.nodes && u.nodes[cur].isDir) && (s.At? ==> GoesThroughDirs(u, s.node, toks[1..])) {
      forall k | 0 <= k < |toks| && toks[k] != "." && Resolve(u, cur, toks[..k]).At?
        ensures var n := Resolve(u, cur, toks[..k]).node; n in u.nodes && u.nodes[n].isDir
      {
        if k > 0 { assert toks[1..][k - 1] != "." && Resolve(u, s.node, toks[1..][..k - 1]).At?; }
      }
    }
  }

  /** What H says of a walk that does not throw, told from the tables it leaves: the path goes on from
      directories only. */
  lemma {:induction false} HIsThroughDirs(t: Tables, cur: nat, flag: bool, toks: seq<string>, mode: Mode, now: string)
    requires Base(t) && 1 <= cur < t.next && AllClean(toks, '/') && WalkFrom(t, cur, flag, toks, mode, now).Reached?
    ensures NoStepPastLeaf(t, cur, toks, mode, now) <==>
            GoesThroughDirs(WalkFrom(t, cur, flag, toks, mode, now).t, cur, toks)
    decreases |toks|
  {
    if toks != [] {
      var entry, rest := toks[0], toks[1..];
      MakeGrows(t, cur, flag, toks, mode, now);
      var t' := WalkFrom(t, cur, flag, toks, mode, now).t;
      GoesThroughStep(t', cur, toks);
      if entry == "." {
        HIsThroughDirs(t, cur, flag, rest, mode, now);
      } else if entry == ".." {
        assert RowOk(cur, t.nodes[cur], t.next);
        HIsThroughDirs(t, t.nodes[cur].parent, flag, rest, mode, now);
      } else {
        var id := Lookup(t, entry, cur);
        if id != 0 {
          LookupSound(t, entry, cur);
          LookupIs(t', entry, cur, id);
          HIsThroughDirs(t, id, t.nodes[id].isDir, rest, mode, now);
        } else if mode.Make? {
          assert Clean(entry, '/');
          var isDir := mode.dir || !IsLast(rest);
          var t1 := InsertNode(t, entry, cur, isDir, now);
          InsertKeepsBase(t, entry, cur, isDir, now);
          MakeGrows(t1, t.next, isDir, rest, mode, now);
          LookupIs(t', entry, cur, t.next);
          HIsThroughDirs(t1, t.next, isDir, rest, mode, now);
        }
      }
    }
  }

  /** The flag agrees with the node the walk stands on; at the root it is set only at the end. */
  predicate FlagAgrees(t: Tables, cur: nat, flag: bool) {
    cur in t.nodes && (flag || cur == ROOT) == t.nodes[cur].isDir
  }

  /** Under H a walk, creating or not, keeps the tree and reports the stored flag. */
  lemma {:induction false} WalkUnderH(t: Tables, cur: nat, flag: bool, toks: seq<string>, mode: Mode, now: string)
    requires Tree(t) && FlagAgrees(t, cur, flag) && AllClean(toks, '/')
    requires NoStepPastLeaf(t, cur, toks, mode, now) && WalkFrom(t, cur, flag, toks, mode, now).Reached?
    ensures var w := WalkFrom(t, cur, flag, toks, mode, now);
            && Tree(w.t)
            && InsertsUnderDirs(t, cur, toks, mode, now)
            && (w.node != 0 ==> w.node in w.t.nodes && w.isDir == w.t.nodes[w.node].isDir)
    decreases |toks|
  {
    if toks != [] {
      var entry, rest := toks[0], toks[1..];
      assert RowOk(cur, t.nodes[cur], t.next);
      if entry == "." {
        WalkUnderH(t, cur, flag, rest, mode, now);
      } else if entry == ".." {
        assert HasParent(t, cur);
        WalkUnderH(t, t.nodes[cur].parent, flag, rest, mode, now);
      } else {
        var id := Lookup(t, entry, cur);
        if id != 0 {
          LookupSound(t, entry, cur);
          WalkUnderH(t, id, t.nodes[id].isDir, rest, mode, now);
        } else if mode.Make? {
          assert Clean(entry, '/');
          var isDir := mode.dir || !IsLast(rest);
          InsertKeepsTree(t, entry, cur, isDir, now);
          WalkUnderH(InsertNode(t, entry, cur, isDir, now), t.next, isDir, rest, mode, now);
        }
      }
    }
  }

  /** find under H: the flag is right and the tree is kept. */
  lemma FindUnderH(t: Tables, path: string, mode: Mode, now: string)
    requires Tree(t) && NoStepPastLeaf(t, ROOT, Tokens(path, '/'), mode, now)
    requires Find(t, path, false, mode, now).Reached?
    ensures var w := Find(t, path, false, mode, now);
            && Tree(w.t)
            && InsertsUnderDirs(t, ROOT, Tokens(path, '/'), mode, now)
            && (w.node != 0 ==> w.node in w.t.nodes && w.isDir == w.t.nodes[w.node].isDir)
  {
    TokensAreClean(path, '/');
    WalkUnderH(t, ROOT, false, Tokens(path, '/'), mode, now);
  }

  // ------------------------------------------------------------------- what H does not promise

  /** The test for the last component forgives one trailing "." and not two: "/a/." creates an entry,
      "/a/./." creates a directory, though H holds and an entry was asked for. */
  lemma DotsMakeDirectory()
    ensures var w := Find(Initial("t0"), "/a/.", false, Make(true, false), "t1");
            w.Reached? && w.node == 2 && 2 in w.t.nodes && !w.t.nodes[2].isDir
    ensures var w := Find(Initial("t0"), "/a/./.", false, Make(true, false), "t1");
            && NoStepPastLeaf(Initial("t0"), ROOT, Tokens("/a/./.", '/'), Make(true, false), "t1")
            && w.Reached? && w.node == 2 && 2 in w.t.nodes && w.t.nodes[2].isDir && w.isDir
  {
    var t, one, two := Initial("t0"), ["a", "."], ["a", ".", "."];
    DotTokens();
    TwoDotTokens();
    assert one[1..] == ["."] && one[1..][1..] == [];
    assert two[1..] == [".", "."] && two[1..][1..] == ["."] && two[1..][1..][1..] == [];
    assert Lookup(t, "a", ROOT) == 0;
    var e, d := InsertNode(t, "a", ROOT, false, "t1"), InsertNode(t, "a", ROOT, true, "t1");
    assert WalkFrom(e, 2, false, one[1..], Make(true, false), "t1") == Reached(e, 2, false);
    assert WalkFrom(d, 2, true, two[1..], Make(true, false), "t1") ==
        WalkFrom(d, 2, true, two[1..][1..], Make(true, false), "t1");
    assert NoStepPastLeaf(d, 2, two[1..], Make(true, false), "t1");
  }

  lemma DotTokens()
    ensures Tokens("/a/.", '/') == ["a", "."]
  {
    var one := ["a", "."];
    TokensOfPathText(one);
    assert one[1..] == ["."];
    assert PathText(one) == "/a/.";
  }

  lemma TwoDotTokens()
    ensures Tokens("/a/./.", '/') == ["a", ".", "."]
  {
    TokensOfThree("a", ".", ".");
    assert "" + "/" + "a" + "/" + "." + "/" + "." == "/a/./.";
  }

  // -------------------------------------------------------------- what happens without H

  /** The flag of the leaf e is reported for the directory d above it. */
  lemma FlagWrong()
    ensures var t := InsertNode(InsertNode(Initial("t0"), "d", ROOT, true, "t1"), "e", 2, false, "t2");
            var w := Find(t, "/d/e/..", false, Look, "t3");
            Tree(t) && w == Reached(t, 2, false) && t.nodes[2] == NodeRow("d", ROOT, true)
  {
    var t1 := InsertNode(Initial("t0"), "d", ROOT, true, "t1");
    InitialIsTree("t0");
    InsertKeepsTree(Initial("t0"), "d", ROOT, true, "t1");
    assert Lookup(t1, "e", 2) == 0;
    InsertKeepsTree(t1, "e", 2, false, "t2");
    var t := InsertNode(t1, "e", 2, false, "t2");
    LookupIs(t, "d", ROOT, 2);
    LookupIs(t, "e", 2, 3);
    var toks := ["d", "e", ".."];
    ClimbTokens();
    assert toks[1..] == ["e", ".."] && toks[1..][1..] == [".."] && toks[1..][1..][1..] == [];
    assert WalkFrom(t, 3, false, toks[1..][1..], Look, "t3") == Reached(t, 2, false);
    assert WalkFrom(t, 2, true, toks[1..], Look, "t3") == WalkFrom(t, 3, false, toks[1..][1..], Look, "t3");
  }

  lemma ClimbTokens()
    ensures Tokens("/d/e/..", '/') == ["d", "e", ".."]
  {
    TokensOfThree("d", "e", "..");
    assert "" + "/" + "d" + "/" + "e" + "/" + ".." == "/d/e/..";
  }

  /** find never looks at is_directory on the way: "/e/x" is created below the entry e. */
  lemma EntryGetsChild()
    ensures var t := InsertNode(Initial("t0"), "e", ROOT, false, "t1");
            var w := Find(t, "/e/x", false, Make(false, false), "t2");
            && Tree(t) && w.Reached? && w.node == 3
            && w.t.nodes == t.nodes[3 := NodeRow("x", 2, false)] && !t.nodes[2].isDir && !Tree(w.t)
  {
    var t := InsertNode(Initial("t0"), "e", ROOT, false, "t1");
    InitialIsTree("t0");
    InsertKeepsTree(Initial("t0"), "e", ROOT, false, "t1");
    ExampleTokens();
    LookupIs(t, "e", ROOT, 2);
    assert Lookup(t, "x", 2) == 0;
    InsertKeepsBase(t, "x", 2, false, "t2");
    var t' := InsertNode(t, "x", 2, false, "t2");
    var toks := ["e", "x"];
    assert toks[1..] == ["x"] && toks[1..][1..] == [];
    assert WalkFrom(t, 2, false, ["x"], Make(false, false), "t2") ==
        WalkFrom(t', 3, false, ["x"][1..], Make(false, false), "t2");
    assert WalkFrom(t, ROOT, false, toks, Make(false, false), "t2") ==
        WalkFrom(t, 2, false, toks[1..], Make(false, false), "t2");
    assert !HasParent(t', 3);
  }

  lemma ExampleTokens()
    ensures Tokens("/e/x", '/') == ["e", "x"]
  {
    assert AllPlain(["e", "x"]);
    TokensOfPathText(["e", "x"]);
    assert Join(["e", "x"][1..], '/') == "x";
    assert PathText(["e", "x"]) == "/e/x";
  }
}
