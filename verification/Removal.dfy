/** database_connection::remove_node: which rows a recursive removal takes away. */
module Removal {
  import opened Schema
  import opened Walk

  // --------------------------------------------------------------- which nodes are taken

  /** remove_node goes on from p to p's children: for the target when it is removed as a directory,
      for any other node when its row says directory. */
  predicate Opens(nodes: map<nat, NodeRow>, id: nat, isEntry: bool, p: nat) {
    if p == id then !isEntry else p in nodes && nodes[p].isDir
  }

  predicate Under(nodes: map<nat, NodeRow>, id: nat, isEntry: bool, x: nat)
    decreases x
  {
    || x == id
    || (&& x in nodes && nodes[x].parent < x
        && Opens(nodes, id, isEntry, nodes[x].parent) && Under(nodes, id, isEntry, nodes[x].parent))
  }

  /** The nodes remove_node(id, isEntry) deletes. */
  function Doomed(nodes: map<nat, NodeRow>, id: nat, isEntry: bool): set<nat> {
    set x | x in nodes && Under(nodes, id, isEntry, x)
  }

  /** Those of them whose data row is deleted: the ones removed as entries. */
  function DoomedData(nodes: map<nat, NodeRow>, id: nat, isEntry: bool): set<nat> {
    set x | x in nodes && Under(nodes, id, isEntry, x) && (if x == id then isEntry else !nodes[x].isDir)
  }

  /** The tables after remove_node: the doomed rows are gone, the parent's utime is stamped. */
  function Pruned(t: Tables, id: nat, isEntry: bool, now: string): Tables
    requires id in t.nodes
  {
    var doomed := Doomed(t.nodes, id, isEntry);
    Tables(t.nodes - doomed,
           Touch(Without(t.meta, doomed), t.nodes[id].parent, now),
           t.data - DoomedData(t.nodes, id, isEntry),
           t.next)
  }

  // ---------------------------------------------------- the loop over the children

  /** The child of id that x hangs below. */
  function Branch(nodes: map<nat, NodeRow>, id: nat, x: nat): nat
    decreases x
  {
    if x in nodes && id != nodes[x].parent < x then Branch(nodes, id, nodes[x].parent) else x
  }

  /** The part of a directory's subtree below the children listed. */
  function Below(nodes: map<nat, NodeRow>, id: nat, kids: seq<nat>): set<nat> {
    set x | x in nodes && x != id && Under(nodes, id, false, x) && Branch(nodes, id, x) in kids
  }

  function BelowData(nodes: map<nat, NodeRow>, id: nat, kids: seq<nat>): set<nat> {
    set x | x in Below(nodes, id, kids) && x in nodes && !nodes[x].isDir
  }

  lemma {:induction false} BranchIsChild(t: Tables, id: nat, x: nat)
    requires Base(t) && x in t.nodes && x != id && Under(t.nodes, id, false, x)
    ensures var k := Branch(t.nodes, id, x);
            k in t.nodes && t.nodes[k].parent == id && id < k <= x && Under(t.nodes, k, !t.nodes[k].isDir, x)
    decreases x
  {
    assert RowOk(x, t.nodes[x], t.next);
    var p := t.nodes[x].parent;
    if p != id {
      BranchIsChild(t, id, p);
      assert Opens(t.nodes, Branch(t.nodes, id, p), !t.nodes[Branch(t.nodes, id, p)].isDir, p);
    }
  }

  lemma {:induction false} ChildBranch(t: Tables, id: nat, k: nat, x: nat)
    requires Base(t) && k in t.nodes && t.nodes[k].parent == id && x in t.nodes &&
             Under(t.nodes, k, !t.nodes[k].isDir, x)
    ensures k <= x && id < k && Under(t.nodes, id, false, x) && Branch(t.nodes, id, x) == k
    decreases x
  {
    assert RowOk(x, t.nodes[x], t.next) && RowOk(k, t.nodes[k], t.next);
    if x != k {
      var p := t.nodes[x].parent;
      assert p in t.nodes;
      ChildBranch(t, id, k, p);
    }
  }

  /** What one recursive call takes is the part below that child. */
  lemma ChildPart(t: Tables, id: nat, k: nat)
    requires Base(t) && k in t.nodes && t.nodes[k].parent == id
    ensures Doomed(t.nodes, k, !t.nodes[k].isDir) == Below(t.nodes, id, [k])
    ensures DoomedData(t.nodes, k, !t.nodes[k].isDir) == BelowData(t.nodes, id, [k])
  {
    forall x | x in t.nodes
      ensures Under(t.nodes, k, !t.nodes[k].isDir, x) <==>
              x != id && Under(t.nodes, id, false, x) && Branch(t.nodes, id, x) == k
    {
      if Under(t.nodes, k, !t.nodes[k].isDir, x) { ChildBranch(t, id, k, x); }
      if x != id && Under(t.nodes, id, false, x) { BranchIsChild(t, id, x); }
    }
  }

  /** Below all its children is the whole subtree but the directory itself. */
  lemma AllParts(t: Tables, id: nat)
    requires Base(t) && id in t.nodes
    ensures Doomed(t.nodes, id, false) == Below(t.nodes, id, Children(t, id)) + {id}
    ensures DoomedData(t.nodes, id, false) == BelowData(t.nodes, id, Children(t, id))
  {
    ChildrenAre(t, id);
    forall x | x in t.nodes && x != id && Under(t.nodes, id, false, x)
      ensures Branch(t.nodes, id, x) in Children(t, id)
    {
      BranchIsChild(t, id, x);
    }
  }

  lemma {:induction false} UnderSurvives(nodes: map<nat, NodeRow>, gone: set<nat>, id: nat, isEntry: bool, x: nat)
    requires id in nodes && x in nodes && forall y | y in nodes && Under(nodes, id, isEntry, y) :: y !in gone
    ensures x in nodes - gone && Under(nodes - gone, id, isEntry, x) <==> Under(nodes, id, isEntry, x)
    decreases x
  {
    if x != id && nodes[x].parent in nodes && nodes[x].parent < x {
      UnderSurvives(nodes, gone, id, isEntry, nodes[x].parent);
    }
  }

  /** Taking other nodes away does not change what a removal takes. */
  lemma DoomedSurvives(nodes: map<nat, NodeRow>, gone: set<nat>, id: nat, isEntry: bool)
    requires id in nodes && Doomed(nodes, id, isEntry) !! gone
    ensures Doomed(nodes - gone, id, isEntry) == Doomed(nodes, id, isEntry)
    ensures DoomedData(nodes - gone, id, isEntry) == DoomedData(nodes, id, isEntry)
  {
    forall y | y in nodes && Under(nodes, id, isEntry, y) ensures y !in gone {
      assert y in Doomed(nodes, id, isEntry);
    }
    forall x | x in nodes
      ensures x in nodes - gone && Under(nodes - gone, id, isEntry, x) <==> Under(nodes, id, isEntry, x)
    {
      UnderSurvives(nodes, gone, id, isEntry, x);
    }
  }

  // -------------------------------------------------------- deleting metadata in several goes

  lemma {:induction false} WithoutConcat(a: seq<MetaRow>, b: seq<MetaRow>, ids: set<nat>)
    ensures Without(a + b, ids) == Without(a, ids) + Without(b, ids)
  {
    if b == [] {
      assert a + b == a;
    } else {
      var n := |b| - 1;
      assert (a + b)[..|a + b| - 1] == a + b[..n];
      WithoutConcat(a, b[..n], ids);
    }
  }

  lemma {:induction false} WithoutTwice(m: seq<MetaRow>, x: set<nat>, y: set<nat>)
    ensures Without(Without(m, x), y) == Without(m, x + y)
  {
    if m != [] {
      var n := |m| - 1;
      WithoutTwice(m[..n], x, y);
      WithoutConcat(Without(m[..n], x), if m[n].node in x then [] else [m[n]], y);
    }
  }

  lemma {:induction false} WithoutTouched(m: seq<MetaRow>, id: nat, now: string, ids: set<nat>)
    requires id in ids
    ensures Without(Touch(m, id, now), ids) == Without(m, ids)
  {
    if m != [] {
      var n := |m| - 1;
      assert Touch(m, id, now)[..n] == Touch(m[..n], id, now);
      WithoutTouched(m[..n], id, now, ids);
    }
  }

  /** One turn of the loop over the children, on the metadata rows: rows of the directory itself
      aside, exactly the child's part is taken. */
  lemma MetaTurn(m0: seq<MetaRow>, m: seq<MetaRow>, id: nat, gone: set<nat>, part: set<nat>, now: string)
    requires Without(m, {id}) == Without(m0, gone + {id})
    ensures Without(Touch(Without(m, part), id, now), {id}) == Without(m0, gone + part + {id})
  {
    WithoutTouched(Without(m, part), id, now, {id});
    WithoutTwice(m, part, {id});
    WithoutTwice(m, {id}, part);
    assert part + {id} == {id} + part;
    WithoutTwice(m0, gone + {id}, part);
    assert gone + {id} + part == gone + part + {id};
  }

  // -------------------------------------------------------- invariants after a removal

  /** The invariants survive, and of the rows that are left none has changed. The metadata of the nodes removed,
      and no other, is gone; the parent of the target, which stays if it was there, is stamped. */
  lemma PrunedKeepsBase(t: Tables, id: nat, isEntry: bool, now: string)
    requires Base(t) && id in t.nodes
    ensures var t' := Pruned(t, id, isEntry, now);
            && Base(t') && t'.next == t.next && id !in t'.nodes
            && (forall i | i in t'.nodes :: i in t.nodes && t'.nodes[i] == t.nodes[i])
            && (forall i | i in t'.data :: i in t.data && t'.data[i] == t.data[i])
            && Unrecorded(t.meta, t'.meta, t.nodes.Keys - t'.nodes.Keys, t.nodes[id].parent, now)
  {
    var doomed := Doomed(t.nodes, id, isEntry);
    var parent := t.nodes[id].parent;
    assert RowOk(id, t.nodes[id], t.next);
    if parent in t.nodes && Under(t.nodes, id, isEntry, parent) { DoomedAreLarger(t, id, isEntry, parent); }
    TouchedWithout(t.meta, doomed, parent, now);
    assert t.nodes.Keys - Pruned(t, id, isEntry, now).nodes.Keys == doomed;
    var kept := Without(t.meta, doomed);
    WithoutKeepsKeyed(t.meta, doomed);
    TouchKeepsKeyed(kept, t.nodes[id].parent, now);
    TouchRowsOf(kept, t.nodes[id].parent, now);
  }

  predicate Childless(t: Tables, id: nat) {
    forall i | i in t.nodes :: t.nodes[i].parent != id
  }

  lemma DoomedAreLarger(t: Tables, id: nat, isEntry: bool, x: nat)
    requires Base(t) && x in t.nodes && Under(t.nodes, id, isEntry, x)
    ensures id <= x
    decreases x
  {
    if x != id && t.nodes[x].parent in t.nodes {
      DoomedAreLarger(t, id, isEntry, t.nodes[x].parent);
    }
  }

  lemma RootNotDoomed(t: Tables, id: nat, isEntry: bool)
    requires Base(t) && ROOT in t.nodes && id in t.nodes && id != ROOT
    ensures !Under(t.nodes, id, isEntry, ROOT)
  {
    assert RowOk(id, t.nodes[id], t.next);
    if Under(t.nodes, id, isEntry, ROOT) { DoomedAreLarger(t, id, isEntry, ROOT); }
  }

  /** Removing keeps the tree exactly when the target is not the root and, removed as an entry, has
      no children, or, removed as a directory, has no data. */
  lemma PrunedKeepsTreeIff(t: Tables, id: nat, isEntry: bool, now: string)
    requires Tree(t) && id in t.nodes
    ensures Tree(Pruned(t, id, isEntry, now)) <==>
            id != ROOT && (if isEntry then Childless(t, id) else id !in t.data)
  {
    var t' := Pruned(t, id, isEntry, now);
    PrunedKeepsBase(t, id, isEntry, now);
    var doomed := Doomed(t.nodes, id, isEntry);
    assert id in doomed;
    if id == ROOT {
      assert ROOT !in t'.nodes;
    } else {
      RootNotDoomed(t, id, isEntry);
      if isEntry {
        if !Childless(t, id) { OrphanLeft(t, id, now); }
      } else if id in t.data {
        assert id in t'.data && id !in t'.nodes;
      }
      if (if isEntry then Childless(t, id) else id !in t.data) {
        forall i | i in t'.nodes && i != ROOT ensures HasParent(t', i) { KeptParent(t, id, isEntry, now, i); }
      }
    }
  }

  lemma OrphanLeft(t: Tables, id: nat, now: string)
    requires Tree(t) && id in t.nodes && id != ROOT && !Childless(t, id)
    ensures !Tree(Pruned(t, id, true, now))
  {
    var i :| i in t.nodes && t.nodes[i].parent == id;
    var t' := Pruned(t, id, true, now);
    assert RowOk(i, t.nodes[i], t.next);
    assert !Under(t.nodes, id, true, i);
    assert i in t'.nodes && !HasParent(t', i);
  }

  lemma KeptParent(t: Tables, id: nat, isEntry: bool, now: string, i: nat)
    requires Tree(t) && id in t.nodes && (isEntry ==> Childless(t, id))
    requires i in Pruned(t, id, isEntry, now).nodes && i != ROOT
    ensures HasParent(Pruned(t, id, isEntry, now), i)
  {
    assert HasParent(t, i) && RowOk(i, t.nodes[i], t.next);
    var p := t.nodes[i].parent;
    if Under(t.nodes, id, isEntry, p) { assert Opens(t.nodes, id, isEntry, p); }
  }

  // ------------------------------------------------------------- removal seen through paths

  lemma {:induction false} UnderIffPrefix(t: Tables, id: nat, x: nat)
    requires Tree(t) && id in t.nodes && x in t.nodes
    ensures Under(t.nodes, id, false, x) <==> PathOf(t, id) <= PathOf(t, x)
    decreases x
  {
    if x != id {
      PathOfResolves(t, id);
      PathOfResolves(t, x);
      if x == ROOT {
        assert PathOf(t, id) != [];
      } else {
        assert HasParent(t, x) && RowOk(x, t.nodes[x], t.next);
        var p := t.nodes[x].parent;
        UnderIffPrefix(t, id, p);
        if PathOf(t, id) <= PathOf(t, x) {
          assert PathOf(t, id) != PathOf(t, x);
          assert PathOf(t, id) <= PathOf(t, p);
        }
      }
    }
  }

  /** The nodes whose path starts with the path of id. */
  function Subtree(t: Tables, id: nat): set<nat>
    requires Tree(t) && id in t.nodes
  {
    set x | x in t.nodes && PathOf(t, id) <= PathOf(t, x)
  }

  lemma DoomedIsSubtree(t: Tables, id: nat)
    requires Tree(t) && id in t.nodes
    ensures Doomed(t.nodes, id, false) == Subtree(t, id)
    ensures t.nodes[id].isDir ==> t.data.Keys * DoomedData(t.nodes, id, false) == t.data.Keys * Subtree(t, id)
  {
    forall x | x in t.nodes ensures Under(t.nodes, id, false, x) <==> PathOf(t, id) <= PathOf(t, x) {
      UnderIffPrefix(t, id, x);
    }
  }

  /** remove_directory on a directory other than the root is exact: it takes precisely the nodes
      whose path starts with the target's, with their metadata and data rows; all other rows stay,
      but for the utime of the target's parent. */
  lemma SubtreeRemovalIsExact(t: Tables, id: nat, now: string)
    requires Tree(t) && id in t.nodes && t.nodes[id].isDir && id != ROOT
    ensures var t', gone := Pruned(t, id, false, now), Subtree(t, id);
            && Tree(t')
            && t'.nodes == t.nodes - gone
            && t'.data == t.data - gone
            && t'.meta == Touch(Without(t.meta, gone), t.nodes[id].parent, now)
            && Unrecorded(t.meta, t'.meta, gone, t.nodes[id].parent, now)
            && t'.next == t.next
  {
    DoomedIsSubtree(t, id);
    PrunedKeepsTreeIff(t, id, false, now);
    PrunedKeepsBase(t, id, false, now);
    assert t.nodes.Keys - Pruned(t, id, false, now).nodes.Keys == Subtree(t, id);
    MinusSame(t.data, DoomedData(t.nodes, id, false), Subtree(t, id));
  }

  lemma MinusSame<V>(m: map<nat, V>, a: set<nat>, b: set<nat>)
    requires m.Keys * a == m.Keys * b
    ensures m - a == m - b
  {
    assert forall x :: x in m ==> (x in a <==> x in m.Keys * a) && (x in b <==> x in m.Keys * b);
  }

  predicate LandsIn(t: Tables, id: nat, place: Place)
    requires Tree(t) && id in t.nodes
  {
    place.At? && place.node in Subtree(t, id)
  }

  /** Some prefix of the path leads from cur into the subtree of id. */
  predicate Enters(t: Tables, id: nat, cur: nat, p: seq<string>)
    requires Tree(t) && id in t.nodes
  {
    exists k | 0 <= k <= |p| :: LandsIn(t, id, Resolve(t, cur, p[..k]))
  }

  lemma EntersStep(t: Tables, id: nat, cur: nat, p: seq<string>)
    requires Tree(t) && id in t.nodes && p != [] && !LandsIn(t, id, At(cur))
    ensures var s := Step(t, cur, p[0]); Enters(t, id, cur, p) <==> s.At? && Enters(t, id, s.node, p[1..])
  {
    var s := Step(t, cur, p[0]);
    forall k | 0 < k <= |p|
      ensures Resolve(t, cur, p[..k]) == if s.At? then Resolve(t, s.node, p[1..][..k - 1]) else s
    {
      PrefixStep(p, k - 1, k);
      ResolveStep(t, cur, p[..k]);
    }
    assert Resolve(t, cur, p[..0]) == At(cur);
    if s.At? && Enters(t, id, s.node, p[1..]) {
      var k :| 0 <= k <= |p[1..]| && LandsIn(t, id, Resolve(t, s.node, p[1..][..k]));
      assert Resolve(t, cur, p[..k + 1]) == Resolve(t, s.node, p[1..][..k + 1 - 1]);
    }
  }

  /** After the removal a path leads nowhere if some prefix of it led to a removed node; any other path,
      with "." and ".." or not, leads where it led before, or fails as it failed before. */
  lemma PathsAfterRemoval(t: Tables, id: nat, now: string, p: seq<string>)
    requires Tree(t) && id in t.nodes && t.nodes[id].isDir && id != ROOT
    ensures Resolve(Pruned(t, id, false, now), ROOT, p) ==
            if Enters(t, id, ROOT, p) then Missing else Resolve(t, ROOT, p)
  {
    DoomedIsSubtree(t, id);
    RootNotDoomed(t, id, false);
    PathFromAfterRemoval(t, id, now, ROOT, p);
  }

  lemma {:induction false} PathFromAfterRemoval(t: Tables, id: nat, now: string, cur: nat, p: seq<string>)
    requires Tree(t) && id in t.nodes && t.nodes[id].isDir && id != ROOT && cur in t.nodes && cur !in Subtree(t, id)
    ensures Resolve(Pruned(t, id, false, now), cur, p) == if Enters(t, id, cur, p) then Missing else Resolve(t, cur, p)
    decreases |p|
  {
    if p == [] {
      assert forall k | 0 <= k <= |p| :: p[..k] == [];
    } else {
      var t', s := Pruned(t, id, false, now), Step(t, cur, p[0]);
      StepAfterRemoval(t, id, now, cur, p[0]);
      ResolveStep(t, cur, p);
      ResolveStep(t', cur, p);
      EntersStep(t, id, cur, p);
      if LandsIn(t, id, s) {
        assert Resolve(t, s.node, p[1..][..0]) == s;
      } else if s.At? {
        PathFromAfterRemoval(t, id, now, s.node, p[1..]);
      }
    }
  }

  lemma StepAfterRemoval(t: Tables, id: nat, now: string, cur: nat, name: string)
    requires Tree(t) && id in t.nodes && t.nodes[id].isDir && id != ROOT && cur in t.nodes && cur !in Subtree(t, id)
    ensures var s := Step(t, cur, name);
            && (s.At? ==> s.node in t.nodes)
            && Step(Pruned(t, id, false, now), cur, name) == if LandsIn(t, id, s) then Missing else s
  {
    var t' := Pruned(t, id, false, now);
    DoomedIsSubtree(t, id);
    if name == ".." {
      if cur != ROOT {
        assert HasParent(t, cur) && RowOk(cur, t.nodes[cur], t.next);
        if Under(t.nodes, id, false, t.nodes[cur].parent) { assert Opens(t.nodes, id, false, t.nodes[cur].parent); }
      }
    } else if name != "." {
      var x := Lookup(t, name, cur);
      assert RowOk(cur, t.nodes[cur], t.next);
      if x != 0 {
        LookupSound(t, name, cur);
        LookupAfterRemoval(t, id, now, x);
      } else {
        PrunedKeepsBase(t, id, false, now);
        NoNewMatch(t, t', name, cur);
      }
    }
  }

  lemma NoNewMatch(t: Tables, t': Tables, name: string, parent: nat)
    requires Base(t) && Lookup(t, name, parent) == 0
    requires forall i | i in t'.nodes :: i in t.nodes && t'.nodes[i] == t.nodes[i]
    ensures Lookup(t', name, parent) == 0
  {
    var y := Lookup(t', name, parent);
    if y != 0 { LookupFresh(t, name, parent, y); }
  }

  lemma LookupAfterRemoval(t: Tables, id: nat, now: string, x: nat)
    requires Tree(t) && id in t.nodes && t.nodes[id].isDir && id != ROOT && x in t.nodes && x != ROOT
    ensures var t' := Pruned(t, id, false, now);
            && PlainName(t.nodes[x].name)
            && Lookup(t', t.nodes[x].name, t.nodes[x].parent) == (if x in t'.nodes then x else 0)
            && (t.nodes[x].parent !in t'.nodes ==> x !in t'.nodes)
  {
    var t', name, q := Pruned(t, id, false, now), t.nodes[x].name, t.nodes[x].parent;
    assert HasParent(t, x) && RowOk(x, t.nodes[x], t.next);
    PrunedKeepsBase(t, id, false, now);
    if x in t'.nodes { LookupIs(t', name, q, x); } else { NoOtherMatch(t, t', name, q, x); }
    if Under(t.nodes, id, false, q) { assert Opens(t.nodes, id, false, q); }
  }

  lemma NoOtherMatch(t: Tables, t': Tables, name: string, parent: nat, x: nat)
    requires Base(t) && x in t.nodes && t.nodes[x].name == name && t.nodes[x].parent == parent
    requires t'.nodes.Keys <= t.nodes.Keys && (forall i | i in t'.nodes :: t'.nodes[i] == t.nodes[i]) && x !in t'.nodes
    ensures Lookup(t', name, parent) == 0
  {
    var y := Lookup(t', name, parent);
    assert y in t'.nodes ==> t.nodes[y] == t'.nodes[y];
  }
}
