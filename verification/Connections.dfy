/** The class database_connection: its methods walk and change the shared tables statement by
    statement, and are proved to do what Walk, Removal, Operations and Retry say. */
module Connections {
  import opened Errors
  import opened Operations
  import opened Removal
  import opened Retry
  import opened Schema
  import opened Text
  import opened Walk

  /** The database a connect string names; connections to it share it. */
  class Store {
    var tables: Tables

    constructor (now: string)
      ensures tables == Initial(now)
    {
      tables := Initial(now);
    }
  }

  class Connection {
    const store: Store
    const dbType: nat
    const connectString: string

    constructor (dbType: nat, connectString: string, store: Store)
      ensures this.dbType == dbType && this.connectString == connectString && this.store == store
    {
      this.dbType, this.connectString, this.store := dbType, connectString, store;
    }

    /** get_node_id: whether there is a row with this name and parent; there is at most one. */
    method GetNodeId(entry: string, parentId: nat) returns (found: bool, nodeId: nat, isDir: bool)
      requires Base(store.tables)
      ensures found <==> exists i | i in store.tables.nodes ::
                           store.tables.nodes[i].name == entry && store.tables.nodes[i].parent == parentId
      ensures found ==> nodeId in store.tables.nodes && isDir == store.tables.nodes[nodeId].isDir
      ensures !found ==> nodeId == 0 && !isDir
      ensures forall i | i in store.tables.nodes ::
                store.tables.nodes[i].name == entry && store.tables.nodes[i].parent == parentId <==>
                    found && i == nodeId
      ensures nodeId == Lookup(store.tables, entry, parentId)
    {
      nodeId := Lookup(store.tables, entry, parentId);
      found := nodeId != 0;
      isDir := found && store.tables.nodes[nodeId].isDir;
      ghost var t := store.tables;
      forall i | i in t.nodes
        ensures t.nodes[i].name == entry && t.nodes[i].parent == parentId <==> found && i == nodeId
      {
        if t.nodes[i].name == entry && t.nodes[i].parent == parentId {
          assert RowOk(i, t.nodes[i], t.next);
          LookupIs(t, entry, parentId, i);
        }
      }
    }

    /** The path walker. After a throw the tables may hold part of the path; execute rolls that back. */
    method Find(path: string, isDir0: bool, mode: Mode, now: string) returns (r: Result<(nat, bool)>)
      requires Base(store.tables)
      modifies store
      ensures match Walk.Find(old(store.tables), path, isDir0, mode, now)
              case Reached(t, n, d) => r == Ok((n, d)) && store.tables == t
              case Thrown(e) => r == Err(e)
      ensures mode.Look? ==> store.tables == old(store.tables)
    {
      if path == "" || path[0] != '/' { return Err(INCORRECT_URL); }
      var isDir := isDir0;
      var parentId: nat := 0;
      var currentNodeId: nat := 1;
      var toks := Tokens(path, '/');
      TokensAreClean(path, '/');
      var it := 0;
      while it != |toks|
        invariant 0 <= it <= |toks|
        invariant Base(store.tables) && 1 <= currentNodeId < store.tables.next
        invariant mode.Look? ==> store.tables == old(store.tables)
        invariant WalkFrom(store.tables, currentNodeId, isDir, toks[it..], mode, now)
               == Walk.Find(old(store.tables), path, isDir0, mode, now)
      {
        ghost var rest := toks[it..];
        assert rest[0] == toks[it] && rest[1..] == toks[it + 1..] && Clean(toks[it], '/');
        parentId := currentNodeId;
        currentNodeId := 0;
        var entry := toks[it];
        if entry == "." {
          currentNodeId := parentId;
        } else if entry == ".." {
          if parentId == 1 { return Err(INCORRECT_URL); }
          if parentId !in store.tables.nodes { return Err(NO_SUCCESS); }
          assert RowOk(parentId, store.tables.nodes[parentId], store.tables.next);
          currentNodeId := store.tables.nodes[parentId].parent;
        } else {
          var found;
          found, currentNodeId, isDir := GetNodeId(entry, parentId);
          if !found {
            if mode.Look? { break; }
            var isLast := IsLast(toks[it + 1..]);
            if !mode.parents && !isLast { return Err(NO_SUCCESS); }
            InsertKeepsBase(store.tables, entry, parentId, mode.dir || !isLast, now);
            store.tables := InsertNode(store.tables, entry, parentId, mode.dir || !isLast, now);
            found, currentNodeId, isDir := GetNodeId(entry, parentId);
            assert found;
          } else {
            LookupSound(store.tables, entry, parentId);
          }
        }
        it := it + 1;
      }
      if currentNodeId == 1 { isDir := true; }
      return Ok((currentNodeId, isDir));
    }

    method FindEntry(path: string, throwOnError: bool) returns (r: Result<nat>)
      requires Base(store.tables)
      modifies store
      ensures store.tables == old(store.tables) && r == Operations.FindEntry(store.tables, path, throwOnError)
    {
      var w := Find(path, false, Look, "");
      if w.Err? { return Err(w.error); }
      var (node, foundDir) := w.value;
      if node != 0 && foundDir {
        if throwOnError { return Err(ALREADY_EXISTS); }
        return Ok(0);
      }
      return Ok(node);
    }

    method FindDirectory(path: string, throwOnError: bool) returns (r: Result<nat>)
      requires Base(store.tables)
      modifies store
      ensures store.tables == old(store.tables) && r == Operations.FindDirectory(store.tables, path, throwOnError)
    {
      var w := Find(path, false, Look, "");
      if w.Err? { return Err(w.error); }
      var (node, foundDir) := w.value;
      if node != 0 && !foundDir {
        if throwOnError { return Err(ALREADY_EXISTS); }
        return Ok(0);
      }
      return Ok(node);
    }

    method VerifyNodeExists(nodeId: nat) returns (exists_: bool)
      ensures exists_ == (nodeId in store.tables.nodes)
    {
      exists_ := nodeId in store.tables.nodes;
    }

    /** Recursive removal: children first, each by a call of its own, then the metadata, then the node. */
    method RemoveNode(nodeId: nat, isEntry: bool, now: string)
      requires Base(store.tables) && nodeId in store.tables.nodes
      modifies store
      ensures store.tables == Pruned(old(store.tables), nodeId, isEntry, now)
      ensures var t0, t := old(store.tables), store.tables;
              Unrecorded(t0.meta, t.meta, t0.nodes.Keys - t.nodes.Keys, t0.nodes[nodeId].parent, now)
      decreases store.tables.next - nodeId
    {
      ghost var t0 := store.tables;
      PrunedKeepsBase(t0, nodeId, isEntry, now);
      assert RowOk(nodeId, t0.nodes[nodeId], t0.next);
      if isEntry {
        if nodeId in store.tables.data {
          store.tables := DeleteData(store.tables, nodeId);
        }
        EntryHalf(t0, nodeId);
      } else {
        RemoveChildren(nodeId, now);
        DirectoryHalf(t0, nodeId, store.tables);
      }
      FinishRemoval(t0, nodeId, isEntry, store.tables, now);
      if exists r | r in store.tables.meta :: r.node == nodeId {
        store.tables := store.tables.(meta := Without(store.tables.meta, {nodeId}));
      }
      store.tables := DeleteNode(store.tables, nodeId, now);
    }

    /** The loop of remove_node over the children of a directory. */
    method RemoveChildren(nodeId: nat, now: string)
      requires Base(store.tables) && nodeId in store.tables.nodes
      modifies store
      ensures ChildrenGone(old(store.tables), nodeId, Children(old(store.tables), nodeId), store.tables)
      decreases store.tables.next - nodeId, 0
    {
      ghost var t0 := store.tables;
      var ids := Children(store.tables, nodeId);
      ChildrenAre(t0, nodeId);
      var t := store.tables;
      var isDirs := seq(|ids|, i requires 0 <= i < |ids| => ids[i] in t.nodes && t.nodes[ids[i]].isDir);
      var i := 0;
      NoneGone(t0, nodeId);
      while i < |ids|
        invariant 0 <= i <= |ids| && Base(store.tables)
        invariant ChildrenGone(t0, nodeId, ids[..i], store.tables)
      {
        assert ids[i] in ids;
        OneMoreGone(t0, nodeId, ids, i, store.tables, now);
        RemoveNode(ids[i], !isDirs[i], now);
        i := i + 1;
      }
      assert ids[..i] == ids;
    }

    method CreateEntryDb(path: string, parents: bool, node: nat, isDir: bool, now: string) returns (r: Outcome)
      requires Base(store.tables)
      modifies store
      ensures r == Perform(old(store.tables), path, node, isDir, CreateEntry(parents), now)
      ensures r.Done? ==> r.t == store.tables
    {
      var begun := store.tables;
      var w := Find(path, false, Make(parents, false), now);
      if w.Err? { return Threw(begun, w.error, node); }
      var (found, foundDir) := w.value;
      if found == 0 || foundDir { return Threw(begun, ALREADY_EXISTS, found); }
      return Done(store.tables, found, isDir, Nothing);
    }

    method CreateDirectoryDb(path: string, parents: bool, node: nat, isDir: bool, now: string) returns (r: Outcome)
      requires Base(store.tables)
      modifies store
      ensures r == Perform(old(store.tables), path, node, isDir, CreateDirectory(parents), now)
      ensures r.Done? ==> r.t == store.tables
    {
      var begun := store.tables;
      var w := Find(path, false, Make(parents, true), now);
      if w.Err? { return Threw(begun, w.error, node); }
      var (found, foundDir) := w.value;
      if found == 0 || !foundDir { return Threw(begun, ALREADY_EXISTS, found); }
      return Done(store.tables, found, isDir, Nothing);
    }

    method RemoveDb(path: string, node0: nat, isDir: bool, now: string) returns (r: Outcome)
      requires Base(store.tables)
      modifies store
      ensures r == Perform(old(store.tables), path, node0, isDir, Remove, now)
      ensures r.Done? ==> r.t == store.tables
    {
      var begun := store.tables;
      var node := node0;
      if node == 0 {
        var f := FindEntry(path, true);
        if f.Err? { return Threw(begun, f.error, node0); }
        node := f.value;
      }
      var live := VerifyNodeExists(node);
      if node == 0 || !live { return Threw(begun, BAD_PARAMETER, node); }
      RemoveNode(node, true, now);
      return Done(store.tables, node, isDir, Nothing);
    }

    method RemoveDirectoryDb(path: string, node0: nat, isDir: bool, now: string) returns (r: Outcome)
      requires Base(store.tables)
      modifies store
      ensures r == Perform(old(store.tables), path, node0, isDir, RemoveDirectory, now)
      ensures r.Done? ==> r.t == store.tables
    {
      var begun := store.tables;
      var node := node0;
      if node == 0 {
        var f := FindDirectory(path, true);
        if f.Err? { return Threw(begun, f.error, node0); }
        node := f.value;
      }
      var live := VerifyNodeExists(node);
      if node == 0 || !live { return Threw(begun, BAD_PARAMETER, node); }
      RemoveNode(node, false, now);
      return Done(store.tables, node, isDir, Nothing);
    }

    /** entries0 is what the caller's vector holds; Names in the answer what it holds afterwards. */
    method ListDb(path: string, pattern: string -> bool, entries0: seq<string>, node0: nat, isDir: bool, now: string)
        returns (r: Outcome)
      requires Base(store.tables)
      modifies store
      ensures r == Perform(old(store.tables), path, node0, isDir, List(pattern, entries0), now)
      ensures r.Done? ==> r.t == store.tables
    {
      var begun := store.tables;
      var node := node0;
      if node == 0 {
        var f := FindDirectory(path, true);
        if f.Err? { return Threw(begun, f.error, node0); }
        node := f.value;
      }
      var live := VerifyNodeExists(node);
      if node == 0 || !live { return Threw(begun, BAD_PARAMETER, node); }
      var entries := entries0;
      var names := MatchingNames(store.tables, node, pattern);
      if |names| == 1 {
        SoleName(names);
        entries := entries + [names[0]];
      } else if |names| > 1 {
        entries := names;
      }
      return Done(store.tables, node, isDir, Names(entries));
    }

    method SetAttributeDb(path: string, key: string, value: string, isVector: bool, node0: nat, isDir0: bool,
                          now: string)
        returns (r: Outcome)
      requires Base(store.tables)
      modifies store
      ensures r == Perform(old(store.tables), path, node0, isDir0, SetAttribute(key, value, isVector), now)
      ensures r.Done? ==> r.t == store.tables
    {
      var begun := store.tables;
      var node, isDir := node0, isDir0;
      if node == 0 {
        var w := Find(path, isDir, Look, "");
        if w.Err? { return Threw(begun, w.error, node0); }
        node, isDir := w.value.0, w.value.1;
      }
      if node == 0 { return Threw(begun, BAD_PARAMETER, node); }
      if Count(store.tables.meta, node, key) == 0 {
        store.tables := InsertMeta(store.tables, node, key, value, isVector);
      } else {
        store.tables := store.tables.(meta := Overwrite(store.tables.meta, node, key, value, isVector));
      }
      return Done(store.tables, node, isDir, Nothing);
    }

    method RemoveAttributeDb(path: string, key: string, node0: nat, isDir0: bool, now: string) returns (r: Outcome)
      requires Base(store.tables)
      modifies store
      ensures r == Perform(old(store.tables), path, node0, isDir0, RemoveAttribute(key), now)
      ensures r.Done? ==> r.t == store.tables
    {
      var begun := store.tables;
      var node, isDir := node0, isDir0;
      if node == 0 {
        var w := Find(path, isDir, Look, "");
        if w.Err? { return Threw(begun, w.error, node0); }
        node, isDir := w.value.0, w.value.1;
      }
      if node == 0 { return Threw(begun, BAD_PARAMETER, node); }
      if Count(store.tables.meta, node, key) == 0 { return Threw(begun, DOES_NOT_EXIST, node); }
      store.tables := store.tables.(meta := WithoutKey(store.tables.meta, node, key));
      return Done(store.tables, node, isDir, Nothing);
    }

    method GetAttributeDb(path: string, key: string, node0: nat, isDir0: bool, now: string) returns (r: Outcome)
      requires Base(store.tables)
      modifies store
      ensures r == Perform(old(store.tables), path, node0, isDir0, GetAttribute(key), now)
      ensures r.Done? ==> r.t == store.tables
    {
      var begun := store.tables;
      var node, isDir := node0, isDir0;
      if node == 0 {
        var w := Find(path, isDir, Look, "");
        if w.Err? { return Threw(begun, w.error, node0); }
        node, isDir := w.value.0, w.value.1;
      }
      if node == 0 { return Threw(begun, BAD_PARAMETER, node); }
      if Count(store.tables.meta, node, key) == 0 { return Threw(begun, NO_SUCCESS, node); }
      var row := FirstRow(store.tables.meta, node, key);
      return Done(store.tables, node, isDir, Value(row.value, row.isVector));
    }

    method StoreDataDb(path: string, content: string, node0: nat, isDir: bool, now: string) returns (r: Outcome)
      requires Base(store.tables)
      modifies store
      ensures r == Perform(old(store.tables), path, node0, isDir, Op.Store(content), now)
      ensures r.Done? ==> r.t == store.tables
    {
      var begun := store.tables;
      var node := node0;
      if node == 0 {
        var f := FindEntry(path, true);
        if f.Err? { return Threw(begun, f.error, node0); }
        node := f.value;
      }
      var live := VerifyNodeExists(node);
      if node == 0 || !live { return Threw(begun, BAD_PARAMETER, node); }
      store.tables := PutData(store.tables, node, content, now);
      return Done(store.tables, node, isDir, Nothing);
    }

    method RetrieveDataDb(path: string, node0: nat, isDir: bool, now: string) returns (r: Outcome)
      requires Base(store.tables)
      modifies store
      ensures r == Perform(old(store.tables), path, node0, isDir, Retrieve, now)
      ensures r.Done? ==> r.t == store.tables
    {
      var begun := store.tables;
      var node := node0;
      if node == 0 {
        var f := FindEntry(path, true);
        if f.Err? { return Threw(begun, f.error, node0); }
        node := f.value;
      }
      var live := VerifyNodeExists(node);
      if node == 0 || !live { return Threw(begun, BAD_PARAMETER, node); }
      if node !in store.tables.data { return Threw(begun, NO_SUCCESS, node); }
      return Done(store.tables, node, isDir, Value(store.tables.data[node], false));
    }

    /** The bound function that execute calls. */
    method Attempt(path: string, node: nat, isDir: bool, op: Op, now: string) returns (r: Outcome)
      requires Base(store.tables)
      modifies store
      ensures r == Perform(old(store.tables), path, node, isDir, op, now)
      ensures r.Done? ==> r.t == store.tables
    {
      var begun := store.tables;
      match op
      case CreateEntry(parents) => r := CreateEntryDb(path, parents, node, isDir, now);
      case CreateDirectory(parents) => r := CreateDirectoryDb(path, parents, node, isDir, now);
      case Remove => r := RemoveDb(path, node, isDir, now);
      case RemoveDirectory => r := RemoveDirectoryDb(path, node, isDir, now);
      case SetAttribute(key, value, isVector) => r := SetAttributeDb(path, key, value, isVector, node, isDir, now);
      case RemoveAttribute(key) => r := RemoveAttributeDb(path, key, node, isDir, now);
      case GetAttribute(key) => r := GetAttributeDb(path, key, node, isDir, now);
      case Store(content) => r := StoreDataDb(path, content, node, isDir, now);
      case Retrieve => r := RetrieveDataDb(path, node, isDir, now);
      case List(pattern, entries) => r := ListDb(path, pattern, entries, node, isDir, now);
    }

    /** The transaction wrapper. Attempt number k fails with failures[k], having torn the tables and
        possibly assigned the references; others commit while it sleeps; the attempt after the last
        failure runs clean. */
    method Execute(path: string, node0: nat, isDir0: bool, op0: Op, now: string, failures: seq<Failure>)
        returns (r: Outcome)
      requires Base(store.tables) && Interference(store.tables, failures)
      modifies store
      ensures r == Executed(old(store.tables), path, node0, isDir0, op0, now, failures)
      ensures store.tables == r.t
    {
      var node, isDir, op := node0, isDir0, op0;
      var count := 0;
      while true
        invariant 0 <= count <= |failures|
        invariant Base(store.tables) && Interference(store.tables, failures[count..])
        invariant Executed(store.tables, path, node, isDir, op, now, failures[count..])
               == Executed(old(store.tables), path, node0, isDir0, op0, now, failures)
        decreases |failures| - count
      {
        var begun := store.tables;
        if count == |failures| {
          r := Attempt(path, node, isDir, op, now);
          if r.Threw? {
            store.tables := begun;
            ThrewRollsBack(begun, path, node, isDir, op, now);
          }
          return;
        }
        var failure := failures[count];
        assert failures[count..][0] == failure && failures[count..][1..] == failures[count + 1..];
        var refs := AfterFailure(begun, path, Refs(node, isDir, op), failure);
        node, isDir, op := refs.node, refs.isDir, refs.op;
        store.tables := failure.torn;
        store.tables := begun;
        if !failure.resolvable { return Threw(begun, NO_SUCCESS, node); }
        store.tables := failure.next;
        count := count + 1;
      }
    }
  }

  lemma SoleName(names: seq<string>)
    requires |names| == 1
    ensures [names[0]] == names
  {
  }

  /** The tables once the given children of a directory, with all below them, have been removed. The
      removals stamped the directory's own metadata rows, which are about to go. */
  predicate ChildrenGone(t0: Tables, id: nat, kids: seq<nat>, t: Tables) {
    && t.nodes == t0.nodes - Below(t0.nodes, id, kids)
    && t.data == t0.data - BelowData(t0.nodes, id, kids)
    && t.next == t0.next
    && Without(t.meta, {id}) == Without(t0.meta, Below(t0.nodes, id, kids) + {id})
  }

  lemma NoneGone(t0: Tables, id: nat)
    ensures ChildrenGone(t0, id, [], t0)
  {
    assert Below(t0.nodes, id, []) == {} && BelowData(t0.nodes, id, []) == {};
    assert {} + {id} == {id};
  }

  /** One turn of that loop. */
  lemma OneMoreGone(t0: Tables, id: nat, ids: seq<nat>, i: nat, t: Tables, now: string)
    requires Base(t0) && Base(t) && id in t0.nodes && ids == Children(t0, id) && i < |ids|
    requires ChildrenGone(t0, id, ids[..i], t)
    ensures var k := ids[i];
            && k in t0.nodes && k in t.nodes && id < k < t.next
            && Base(Pruned(t, k, !t0.nodes[k].isDir, now))
            && ChildrenGone(t0, id, ids[..i + 1], Pruned(t, k, !t0.nodes[k].isDir, now))
  {
    var k, before := ids[i], ids[..i];
    NextPart(t0, id, ids, i);
    SamePart(t0, id, before, t, k);
    PrunedKeepsBase(t, k, !t0.nodes[k].isDir, now);
    AddPart(t0, id, before, ids[..i + 1], t, k, now);
  }

  /** What the next removal takes from the tables as they are is what it would have taken at first. */
  lemma SamePart(t0: Tables, id: nat, before: seq<nat>, t: Tables, k: nat)
    requires Base(t0) && k in t0.nodes && t0.nodes[k].parent == id && id < k
    requires k !in Below(t0.nodes, id, before)
    requires Doomed(t0.nodes, k, !t0.nodes[k].isDir) !! Below(t0.nodes, id, before)
    requires ChildrenGone(t0, id, before, t)
    ensures k in t.nodes && t.nodes[k] == t0.nodes[k] && k < t.next
    ensures Doomed(t.nodes, k, !t0.nodes[k].isDir) == Doomed(t0.nodes, k, !t0.nodes[k].isDir)
    ensures DoomedData(t.nodes, k, !t0.nodes[k].isDir) == DoomedData(t0.nodes, k, !t0.nodes[k].isDir)
  {
    assert RowOk(k, t0.nodes[k], t0.next);
    DoomedSurvives(t0.nodes, Below(t0.nodes, id, before), k, !t0.nodes[k].isDir);
  }

  lemma AddPart(t0: Tables, id: nat, before: seq<nat>, after: seq<nat>, t: Tables, k: nat, now: string)
    requires k in t0.nodes && k in t.nodes && t.nodes[k] == t0.nodes[k] && t0.nodes[k].parent == id
    requires ChildrenGone(t0, id, before, t)
    requires Doomed(t.nodes, k, !t0.nodes[k].isDir) == Doomed(t0.nodes, k, !t0.nodes[k].isDir)
    requires DoomedData(t.nodes, k, !t0.nodes[k].isDir) == DoomedData(t0.nodes, k, !t0.nodes[k].isDir)
    requires Below(t0.nodes, id, after) == Below(t0.nodes, id, before) + Doomed(t0.nodes, k, !t0.nodes[k].isDir)
    requires BelowData(t0.nodes, id, after) ==
             BelowData(t0.nodes, id, before) + DoomedData(t0.nodes, k, !t0.nodes[k].isDir)
    ensures ChildrenGone(t0, id, after, Pruned(t, k, !t0.nodes[k].isDir, now))
  {
    var part, partData := Doomed(t0.nodes, k, !t0.nodes[k].isDir), DoomedData(t0.nodes, k, !t0.nodes[k].isDir);
    MetaTurn(t0.meta, t.meta, id, Below(t0.nodes, id, before), part, now);
    MinusTwice(t0.nodes, Below(t0.nodes, id, before), part);
    MinusTwice(t0.data, BelowData(t0.nodes, id, before), partData);
  }

  lemma MinusTwice<V>(m: map<nat, V>, a: set<nat>, b: set<nat>)
    ensures m - a - b == m - (a + b)
  {
  }

  /** The children, or the data, are gone; the node and its metadata are still to go. */
  predicate HalfGone(t0: Tables, id: nat, isEntry: bool, t1: Tables) {
    && t1.next == t0.next
    && t1.nodes == t0.nodes - (Doomed(t0.nodes, id, isEntry) - {id})
    && t1.data == t0.data - DoomedData(t0.nodes, id, isEntry)
    && Without(t1.meta, {id}) == Without(t0.meta, Doomed(t0.nodes, id, isEntry))
  }

  lemma EntryHalf(t0: Tables, id: nat)
    requires Base(t0) && id in t0.nodes
    ensures HalfGone(t0, id, true, if id in t0.data then DeleteData(t0, id) else t0)
  {
    EntryAlone(t0, id);
    assert Doomed(t0.nodes, id, true) - {id} == {};
  }

  lemma DirectoryHalf(t0: Tables, id: nat, t1: Tables)
    requires Base(t0) && id in t0.nodes && ChildrenGone(t0, id, Children(t0, id), t1)
    ensures HalfGone(t0, id, false, t1)
  {
    AllParts(t0, id);
  }

  /** What is left to do then. */
  lemma FinishRemoval(t0: Tables, id: nat, isEntry: bool, t1: Tables, now: string)
    requires id in t0.nodes && HalfGone(t0, id, isEntry, t1)
    ensures var t2 := if exists r | r in t1.meta :: r.node == id then t1.(meta := Without(t1.meta, {id})) else t1;
            DeleteNode(t2, id, now) == Pruned(t0, id, isEntry, now)
  {
    WithoutTwice(t1.meta, {id}, {id});
    assert {id} + {id} == {id};
    assert id in Doomed(t0.nodes, id, isEntry);
    assert t1.nodes - {id} == t0.nodes - Doomed(t0.nodes, id, isEntry);
    if !exists r | r in t1.meta :: r.node == id { NothingToDelete(t1.meta, id); }
  }

  lemma NothingToDelete(m: seq<MetaRow>, id: nat)
    requires forall r | r in m :: r.node != id
    ensures Without(m, {id}) == m
  {
    if m != [] {
      var n := |m| - 1;
      assert m == m[..n] + [m[n]];
      NothingToDelete(m[..n], id);
    }
  }

  /** Removed as an entry, a node goes alone. */
  lemma EntryAlone(t: Tables, id: nat)
    requires Base(t) && id in t.nodes
    ensures Doomed(t.nodes, id, true) == {id} && DoomedData(t.nodes, id, true) == {id}
  {
    forall x | x in t.nodes && x != id ensures !Under(t.nodes, id, true, x) { NotUnderEntry(t, id, x); }
  }

  lemma NotUnderEntry(t: Tables, id: nat, x: nat)
    requires Base(t) && x in t.nodes && x != id
    ensures !Under(t.nodes, id, true, x)
    decreases x
  {
    if t.nodes[x].parent in t.nodes && t.nodes[x].parent != id && t.nodes[x].parent < x {
      NotUnderEntry(t, id, t.nodes[x].parent);
    }
  }

  /** The next child's part is disjoint from the parts already taken and extends them by one. */
  lemma NextPart(t: Tables, id: nat, ids: seq<nat>, i: nat)
    requires Base(t) && id in t.nodes && ids == Children(t, id) && i < |ids|
    ensures var k := ids[i];
            && k in t.nodes && t.nodes[k].parent == id && id < k
            && k !in Below(t.nodes, id, ids[..i])
            && Doomed(t.nodes, k, !t.nodes[k].isDir) !! Below(t.nodes, id, ids[..i])
            && Below(t.nodes, id, ids[..i + 1]) == Below(t.nodes, id, ids[..i]) + Doomed(t.nodes, k, !t.nodes[k].isDir)
            && BelowData(t.nodes, id, ids[..i + 1]) ==
               BelowData(t.nodes, id, ids[..i]) + DoomedData(t.nodes, k, !t.nodes[k].isDir)
  {
    ChildrenAre(t, id);
    var k := ids[i];
    assert k in ids;
    ChildPart(t, id, k);
    assert RowOk(k, t.nodes[k], t.next);
    assert ids[..i + 1] == ids[..i] + [k];
    assert k !in ids[..i];
    assert k in Doomed(t.nodes, k, !t.nodes[k].isDir);
  }
}
