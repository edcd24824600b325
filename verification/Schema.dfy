/** The relational tables of the advert database, the SQL statements issued against them,
    the SQLite triggers those statements fire, and the invariants of the tables.

    Rows of `nodes` are found by their primary key; a scan visits them in key order. The
    metadata table has no key at all, so it is a sequence of rows in insertion order. */
module Schema {
  /** parent 0 stands for the NULL parent of the root row. */
  datatype NodeRow = NodeRow(name: string, parent: nat, isDir: bool)

  datatype MetaRow = MetaRow(node: nat, key: string, value: string, isVector: bool)

  /** `next` is the auto-increment counter of `nodes`: no row ever had this key or a larger one. */
  datatype Tables = Tables(nodes: map<nat, NodeRow>, meta: seq<MetaRow>, data: map<nat, string>, next: nat)

  const ROOT: nat := 1

  /** The tables as init_sqlite3_stmts leaves them. The root row is inserted before the
      insert_nodes trigger exists, hence the two explicit metadata rows. */
  function Initial(now: string): Tables {
    Tables(map[ROOT := NodeRow("__root__", 0, true)],
           [MetaRow(ROOT, "ctime", now, false), MetaRow(ROOT, "utime", now, false)],
           map[], 2)
  }

  // ------------------------------------------------------------------ queries on nodes

  /** Smallest row id in [from, end) with this name and parent; 0 when there is none. */
  function FirstMatch(nodes: map<nat, NodeRow>, name: string, parent: nat, from: nat, end: nat): (r: nat)
    requires from >= 1
    ensures r == 0 || (from <= r < end && r in nodes && nodes[r].name == name && nodes[r].parent == parent)
    ensures r == 0 ==> forall k :: from <= k < end && k in nodes ==> nodes[k].name != name || nodes[k].parent != parent
    decreases end - from
  {
    if from >= end then 0
    else if from in nodes && nodes[from].name == name && nodes[from].parent == parent then from
    else FirstMatch(nodes, name, parent, from + 1, end)
  }

  /** "select node_id ... where node_name = :name and parent_id = :id"; 0 when no row matches. */
  function Lookup(t: Tables, name: string, parent: nat): nat {
    FirstMatch(t.nodes, name, parent, 1, t.next)
  }

  /** "select node_id ... where parent_id = :id", in key order. */
  function ChildrenFrom(nodes: map<nat, NodeRow>, parent: nat, from: nat, end: nat): (r: seq<nat>)
    ensures forall k :: k in r ==> from <= k < end && k in nodes && nodes[k].parent == parent
    ensures forall k :: from <= k < end && k in nodes && nodes[k].parent == parent ==> k in r
    ensures forall i, j :: 0 <= i < j < |r| ==> r[i] < r[j]
    decreases end - from
  {
    if from >= end then []
    else
      var rest := ChildrenFrom(nodes, parent, from + 1, end);
      assert forall i :: 0 <= i < |rest| ==> rest[i] in rest;
      if from in nodes && nodes[from].parent == parent then [from] + rest else rest
  }

  function Children(t: Tables, parent: nat): seq<nat> {
    ChildrenFrom(t.nodes, parent, 1, t.next)
  }

  // --------------------------------------------------------------- statements on metadata

  function TouchedRow(r: MetaRow, id: nat, now: string): MetaRow {
    if r.node == id && r.key == "utime" then r.(value := now) else r
  }

  /** "update metadata set metavalue = current_timestamp where node_id = :id and metakey = 'utime'" */
  function Touch(m: seq<MetaRow>, id: nat, now: string): (r: seq<MetaRow>)
    ensures |r| == |m|
    ensures forall i :: 0 <= i < |m| ==> r[i] == TouchedRow(m[i], id, now)
  {
    seq(|m|, i requires 0 <= i < |m| => TouchedRow(m[i], id, now))
  }

  /** "delete from metadata where node_id in ids" */
  function Without(m: seq<MetaRow>, ids: set<nat>): (r: seq<MetaRow>)
    ensures forall x :: x in r <==> x in m && x.node !in ids
  {
    if m == [] then []
    else
      var n := |m| - 1;
      assert m == m[..n] + [m[n]];
      Without(m[..n], ids) + (if m[n].node in ids then [] else [m[n]])
  }

  predicate Matches(r: MetaRow, id: nat, key: string) {
    r.node == id && r.key == key
  }

  /** "select count(*) from metadata where node_id = :id and metakey = :key" */
  function Count(m: seq<MetaRow>, id: nat, key: string): (c: nat)
    ensures c == 0 <==> forall r | r in m :: !Matches(r, id, key)
  {
    if m == [] then 0
    else
      var n := |m| - 1;
      assert m == m[..n] + [m[n]];
      Count(m[..n], id, key) + (if Matches(m[n], id, key) then 1 else 0)
  }

  /** First row selected by node and key. */
  function FirstRow(m: seq<MetaRow>, id: nat, key: string): (r: MetaRow)
    requires Count(m, id, key) != 0
    ensures r in m && Matches(r, id, key)
  {
    if Matches(m[0], id, key) then m[0]
    else
      assert m == [m[0]] + m[1..];
      assert exists r :: r in m[1..] && Matches(r, id, key);
      FirstRow(m[1..], id, key)
  }

  /** "update metadata set metavalue, is_vector where node_id = :id and metakey = :key" */
  function Overwrite(m: seq<MetaRow>, id: nat, key: string, value: string, isVector: bool): (r: seq<MetaRow>)
    ensures |r| == |m|
    ensures forall i :: 0 <= i < |m| ==>
              r[i] == if Matches(m[i], id, key) then m[i].(value := value, isVector := isVector) else m[i]
  {
    seq(|m|, i requires 0 <= i < |m| =>
      if Matches(m[i], id, key) then m[i].(value := value, isVector := isVector) else m[i])
  }

  /** "delete from metadata where node_id = :id and metakey = :key" */
  function WithoutKey(m: seq<MetaRow>, id: nat, key: string): (r: seq<MetaRow>)
    ensures forall x :: x in r <==> x in m && !Matches(x, id, key)
  {
    if m == [] then []
    else
      var n := |m| - 1;
      assert m == m[..n] + [m[n]];
      WithoutKey(m[..n], id, key) + (if Matches(m[n], id, key) then [] else [m[n]])
  }

  // ------------------------------------------------------------------ statements on tables

  /** insert into nodes, with the insert_nodes trigger. */
  function InsertNode(t: Tables, name: string, parent: nat, isDir: bool, now: string): Tables {
    var stamped := t.meta + [MetaRow(t.next, "ctime", now, false), MetaRow(t.next, "utime", now, false)];
    Tables(t.nodes[t.next := NodeRow(name, parent, isDir)], Touch(stamped, parent, now), t.data, t.next + 1)
  }

  /** delete from nodes where node_id = :id, with the delete_nodes trigger. */
  function DeleteNode(t: Tables, id: nat, now: string): Tables {
    if id !in t.nodes then t
    else t.(nodes := t.nodes - {id}, meta := Touch(Without(t.meta, {id}), t.nodes[id].parent, now))
  }

  /** insert into or update data, with the insert_data and update_data triggers. */
  function PutData(t: Tables, id: nat, content: string, now: string): Tables {
    t.(data := t.data[id := content], meta := Touch(t.meta, id, now))
  }

  /** delete from data where node_id = :id; no trigger. */
  function DeleteData(t: Tables, id: nat): Tables {
    t.(data := t.data - {id})
  }

  function InsertMeta(t: Tables, id: nat, key: string, value: string, isVector: bool): Tables {
    t.(meta := t.meta + [MetaRow(id, key, value, isVector)])
  }

  // ------------------------------------------------------------------------- invariants

  /** A name that a '/'-separated path can spell as one ordinary component. */
  predicate PlainName(name: string) {
    name != "" && '/' !in name && name != "." && name != ".."
  }

  predicate RowOk(id: nat, r: NodeRow, next: nat) {
    && 1 <= id < next
    && r.parent < id
    && (id == ROOT ==> r == NodeRow("__root__", 0, true))
    && (id != ROOT ==> r.parent != 0 && PlainName(r.name))
  }

  predicate NamesUnique(nodes: map<nat, NodeRow>) {
    forall i, j | i in nodes && j in nodes :: nodes[i].parent == nodes[j].parent && nodes[i].name == nodes[j].name ==>
        i == j
  }

  predicate KeyedOnce(m: seq<MetaRow>) {
    forall i, j | 0 <= i < j < |m| :: m[i].node != m[j].node || m[i].key != m[j].key
  }

  predicate NodesOk(t: Tables) {
    && t.next >= 2
    && (forall i | i in t.nodes :: RowOk(i, t.nodes[i], t.next))
    && NamesUnique(t.nodes)
  }

  predicate RowsBelow(t: Tables) {
    && (forall r | r in t.meta :: 1 <= r.node < t.next)
    && (forall i | i in t.data :: 1 <= i < t.next)
  }

  /** What every run keeps, whatever its callers do. */
  predicate Base(t: Tables) {
    NodesOk(t) && RowsBelow(t) && KeyedOnce(t.meta)
  }

  predicate HasParent(t: Tables, i: nat)
    requires i in t.nodes
  {
    t.nodes[i].parent in t.nodes && t.nodes[t.nodes[i].parent].isDir
  }

  /** What runs keep as long as nothing is created under, or stored in, the wrong kind of node. */
  predicate Tree(t: Tables) {
    && Base(t)
    && ROOT in t.nodes
    && (forall i {:trigger HasParent(t, i)} | i in t.nodes && i != ROOT :: HasParent(t, i))
    && (forall i | i in t.data :: i in t.nodes && !t.nodes[i].isDir)
  }

  lemma InitialIsTree(now: string)
    ensures Tree(Initial(now))
    ensures var t := Initial(now);
            && t.nodes.Keys == {1} && t.data == map[] && |t.meta| == 2
            && MetaRow(1, "ctime", now, false) in t.meta && MetaRow(1, "utime", now, false) in t.meta
  {
  }

  // --------------------------------------------------------------- facts about the queries

  lemma LookupIs(t: Tables, name: string, parent: nat, id: nat)
    requires Base(t) && id in t.nodes && t.nodes[id].name == name && t.nodes[id].parent == parent
    ensures Lookup(t, name, parent) == id
  {
    assert RowOk(id, t.nodes[id], t.next);
  }

  lemma LookupSound(t: Tables, name: string, parent: nat)
    requires Base(t) && parent != 0 && Lookup(t, name, parent) != 0
    ensures var id := Lookup(t, name, parent);
            id in t.nodes && t.nodes[id].name == name && t.nodes[id].parent == parent
            && parent < id < t.next && id != ROOT && PlainName(name)
  {
    var id := Lookup(t, name, parent);
    assert RowOk(id, t.nodes[id], t.next);
  }

  lemma LookupFresh(t: Tables, name: string, parent: nat, i: nat)
    requires Base(t) && Lookup(t, name, parent) == 0 && i in t.nodes
    ensures t.nodes[i].name != name || t.nodes[i].parent != parent
  {
    assert RowOk(i, t.nodes[i], t.next);
  }

  lemma ChildrenAre(t: Tables, parent: nat)
    requires Base(t)
    ensures forall k :: k in Children(t, parent) <==> k in t.nodes && t.nodes[k].parent == parent
  {
    forall k | k in t.nodes ensures 1 <= k < t.next { assert RowOk(k, t.nodes[k], t.next); }
  }

  // ----------------------------------------------------------- facts about metadata rows

  lemma TouchKeepsKeyed(m: seq<MetaRow>, id: nat, now: string)
    ensures KeyedOnce(Touch(m, id, now)) <==> KeyedOnce(m)
  {
    var r := Touch(m, id, now);
    assert forall i :: 0 <= i < |m| ==> r[i].node == m[i].node && r[i].key == m[i].key;
  }

  lemma TouchRowsOf(m: seq<MetaRow>, id: nat, now: string)
    ensures forall x :: x in Touch(m, id, now) ==> exists y :: y in m && y.node == x.node && y.key == x.key
  {
    var r := Touch(m, id, now);
    forall x | x in r ensures exists y :: y in m && y.node == x.node && y.key == x.key {
      var i :| 0 <= i < |r| && r[i] == x;
      assert m[i] in m;
    }
  }

  /** The trigger's stamp: utime rows of the node say now, all other rows are as they were. */
  lemma TouchIs(m: seq<MetaRow>, id: nat, now: string)
    ensures var r := Touch(m, id, now);
            && (forall x: MetaRow | x.node != id || x.key != "utime" :: x in r <==> x in m)
            && (forall x | x in m && x.node == id && x.key == "utime" :: x.(value := now) in r)
            && (forall x | x in r && x.node == id && x.key == "utime" :: x.value == now)
  {
    var r := Touch(m, id, now);
    forall x | x in m && x.node == id && x.key == "utime" ensures x.(value := now) in r {
      var i :| 0 <= i < |m| && m[i] == x;
      assert r[i] == x.(value := now);
    }
    forall x: MetaRow | x.node != id || x.key != "utime" ensures x in r <==> x in m {
      if x in m {
        var i :| 0 <= i < |m| && m[i] == x;
        assert r[i] == x;
      }
      if x in r {
        var i :| 0 <= i < |r| && r[i] == x;
        assert m[i] == x;
      }
    }
  }

  lemma KeyedAppend(m: seq<MetaRow>, r: MetaRow)
    requires KeyedOnce(m) && forall x | x in m :: !Matches(x, r.node, r.key)
    ensures KeyedOnce(m + [r])
  {
    forall i | 0 <= i < |m| ensures !Matches(m[i], r.node, r.key) { assert m[i] in m; }
  }

  lemma {:induction false} WithoutKeepsKeyed(m: seq<MetaRow>, ids: set<nat>)
    requires KeyedOnce(m)
    ensures KeyedOnce(Without(m, ids))
  {
    if m != [] {
      var n := |m| - 1;
      WithoutKeepsKeyed(m[..n], ids);
      if m[n].node !in ids { KeyedAppend(Without(m[..n], ids), m[n]); }
    }
  }

  lemma {:induction false} WithoutKeyKeepsKeyed(m: seq<MetaRow>, id: nat, key: string)
    requires KeyedOnce(m)
    ensures KeyedOnce(WithoutKey(m, id, key))
  {
    if m != [] {
      var n := |m| - 1;
      WithoutKeyKeepsKeyed(m[..n], id, key);
      if !Matches(m[n], id, key) { KeyedAppend(WithoutKey(m[..n], id, key), m[n]); }
    }
  }

  // ------------------------------------------------------ statements keep the invariants

  lemma InsertKeepsBase(t: Tables, name: string, parent: nat, isDir: bool, now: string)
    requires Base(t) && Lookup(t, name, parent) == 0 && PlainName(name) && 1 <= parent < t.next
    ensures Base(InsertNode(t, name, parent, isDir, now))
    ensures Lookup(InsertNode(t, name, parent, isDir, now), name, parent) == t.next
  {
    var t' := InsertNode(t, name, parent, isDir, now);
    forall i | i in t.nodes
      ensures RowOk(i, t.nodes[i], t.next) && (t.nodes[i].name != name || t.nodes[i].parent != parent)
    {
      LookupFresh(t, name, parent, i);
    }
    assert NodesOk(t');
    StampsKeepKeyed(t, now);
    var stamped := t.meta + [MetaRow(t.next, "ctime", now, false), MetaRow(t.next, "utime", now, false)];
    TouchKeepsKeyed(stamped, parent, now);
    TouchRowsOf(stamped, parent, now);
    LookupIs(t', name, parent, t.next);
  }

  /** What the insert_nodes trigger writes: a creation and a modification time for the new node, and the
      modification time of its parent. */
  lemma InsertStamps(t: Tables, name: string, parent: nat, isDir: bool, now: string)
    requires Base(t) && 1 <= parent < t.next
    ensures var m := InsertNode(t, name, parent, isDir, now).meta;
            && |m| == |t.meta| + 2
            && MetaRow(t.next, "ctime", now, false) in m && MetaRow(t.next, "utime", now, false) in m
            && (forall x | x in t.meta && x.node == parent && x.key == "utime" :: x.(value := now) in m)
            && (forall x | x in m && x.node == parent && x.key == "utime" :: x.value == now)
            && (forall x: MetaRow | x.node != t.next && (x.node != parent || x.key != "utime") ::
                  x in m <==> x in t.meta)
  {
    var c, u := MetaRow(t.next, "ctime", now, false), MetaRow(t.next, "utime", now, false);
    TouchIs(t.meta + [c, u], parent, now);
    assert forall x :: x in t.meta + [c, u] <==> x in t.meta || x == c || x == u;
  }

  lemma StampsKeepKeyed(t: Tables, now: string)
    requires RowsBelow(t) && KeyedOnce(t.meta)
    ensures KeyedOnce(t.meta + [MetaRow(t.next, "ctime", now, false), MetaRow(t.next, "utime", now, false)])
  {
    var c, u := MetaRow(t.next, "ctime", now, false), MetaRow(t.next, "utime", now, false);
    KeyedAppend(t.meta, c);
    KeyedAppend(t.meta + [c], u);
    assert t.meta + [c, u] == t.meta + [c] + [u];
  }

  /** The rows of these nodes are gone, the parent's modification time says now, all other rows are as before. */
  ghost predicate Unrecorded(was: seq<MetaRow>, cur: seq<MetaRow>, gone: set<nat>, parent: nat, now: string) {
    && (forall x | x in cur :: x.node !in gone)
    && (forall x: MetaRow | x.node !in gone && (x.node != parent || x.key != "utime") :: x in cur <==> x in was)
    && (forall x | x in was && x.node == parent && x.key == "utime" :: x.(value := now) in cur)
    && (forall x | x in cur && x.node == parent && x.key == "utime" :: x.value == now)
  }

  lemma TouchedWithout(m: seq<MetaRow>, gone: set<nat>, parent: nat, now: string)
    requires parent !in gone
    ensures Unrecorded(m, Touch(Without(m, gone), parent, now), gone, parent, now)
  {
    TouchIs(Without(m, gone), parent, now);
  }

  /** What the delete_nodes trigger does: the metadata of the node goes, its parent is stamped. */
  lemma DeleteUnrecords(t: Tables, id: nat, now: string)
    requires Base(t) && id in t.nodes
    ensures var t' := DeleteNode(t, id, now);
            && Unrecorded(t.meta, t'.meta, {id}, t.nodes[id].parent, now)
            && t'.nodes == t.nodes - {id} && t'.data == t.data && t'.next == t.next
  {
    assert RowOk(id, t.nodes[id], t.next);
    TouchedWithout(t.meta, {id}, t.nodes[id].parent, now);
  }

  lemma DeleteKeepsBase(t: Tables, id: nat, now: string)
    requires Base(t)
    ensures Base(DeleteNode(t, id, now))
  {
    if id in t.nodes {
      var parent := t.nodes[id].parent;
      var kept := Without(t.meta, {id});
      WithoutKeepsKeyed(t.meta, {id});
      TouchKeepsKeyed(kept, parent, now);
      TouchRowsOf(kept, parent, now);
    }
  }

  lemma PutKeepsBase(t: Tables, id: nat, content: string, now: string)
    requires Base(t) && 1 <= id < t.next
    ensures Base(PutData(t, id, content, now))
  {
    TouchKeepsKeyed(t.meta, id, now);
    TouchRowsOf(t.meta, id, now);
  }
}
