/** The operations of database_connection: what each *_db function, run once inside its
    transaction, does to the tables and to the node and is_dir references it is given. */
module Operations {
  import opened Errors
  import opened Growth
  import opened Removal
  import opened Schema
  import opened Text
  import opened Walk

  datatype Op =
    | CreateEntry(parents: bool)
    | CreateDirectory(parents: bool)
    | Remove
    | RemoveDirectory
    | SetAttribute(key: string, value: string, isVector: bool)
    | RemoveAttribute(key: string)
    | GetAttribute(key: string)
    | Store(content: string)
    | Retrieve
    | List(pattern: string -> bool, entries: seq<string>)

  /** Names: what the caller's entries vector holds after list. */
  datatype Answer = Nothing | Value(text: string, isVector: bool) | Names(names: seq<string>)

  /** Done: the transaction commits t. Threw: it is rolled back, and the tables are t as at its begin. The
      node and is_dir references keep what was assigned to them in either case. */
  datatype Outcome =
    | Done(t: Tables, node: nat, isDir: bool, answer: Answer)
    | Threw(t: Tables, error: ErrorCode, node: nat)

  /** find_entry: 0 when there is no such entry, or (unless told to throw) when it is a directory. */
  function FindEntry(t: Tables, path: string, throwOnError: bool): Result<nat> {
    match Find(t, path, false, Look, "")
    case Thrown(e) => Err(e)
    case Reached(_, n, isDir) =>
      if n != 0 && isDir then (if throwOnError then Err(ALREADY_EXISTS) else Ok(0)) else Ok(n)
  }

  function FindDirectory(t: Tables, path: string, throwOnError: bool): Result<nat> {
    match Find(t, path, false, Look, "")
    case Thrown(e) => Err(e)
    case Reached(_, n, isDir) =>
      if n != 0 && !isDir then (if throwOnError then Err(ALREADY_EXISTS) else Ok(0)) else Ok(n)
  }

  /** The node and is_dir references after the "if (0 == node_id) node_id = ..." that opens an
      operation on an existing node; creating operations assign the node find returns. */
  datatype Bound = Bound(node: nat, isDir: bool) | Unbound(error: ErrorCode)

  function Bind(t: Tables, path: string, node: nat, isDir: bool, op: Op, now: string): Bound {
    match op
    case CreateEntry(parents) =>
      (match Find(t, path, false, Make(parents, false), now)
       case Thrown(e) => Unbound(e)
       case Reached(_, n, _) => Bound(n, isDir))
    case CreateDirectory(parents) =>
      (match Find(t, path, false, Make(parents, true), now)
       case Thrown(e) => Unbound(e)
       case Reached(_, n, _) => Bound(n, isDir))
    case _ =>
      if node != 0 then Bound(node, isDir)
      else if op.Remove? || op.Store? || op.Retrieve? then
        match FindEntry(t, path, true) case Err(e) => Unbound(e) case Ok(n) => Bound(n, isDir)
      else if op.RemoveDirectory? || op.List? then
        match FindDirectory(t, path, true) case Err(e) => Unbound(e) case Ok(n) => Bound(n, isDir)
      else
        match Find(t, path, isDir, Look, "") case Thrown(e) => Unbound(e) case Reached(_, n, d) => Bound(n, d)
  }

  function NamesOf(t: Tables, ids: seq<nat>): (r: seq<string>)
    requires forall i | i in ids :: i in t.nodes
    ensures |r| == |ids| && forall i | 0 <= i < |ids| :: r[i] == t.nodes[ids[i]].name
  {
    seq(|ids|, i requires 0 <= i < |ids| => assert ids[i] in ids; t.nodes[ids[i]].name)
  }

  function Select(t: Tables, ids: seq<nat>, pattern: string -> bool): (r: seq<nat>)
    requires forall i | i in ids :: i in t.nodes
    ensures forall i :: i in r <==> i in ids && i in t.nodes && pattern(t.nodes[i].name)
    ensures (forall i, j | 0 <= i < j < |ids| :: ids[i] < ids[j]) ==> forall i, j | 0 <= i < j < |r| :: r[i] < r[j]
  {
    if ids == [] then []
    else
      var n := |ids| - 1;
      assert ids == ids[..n] + [ids[n]];
      var front := Select(t, ids[..n], pattern);
      assert forall i | 0 <= i < |front| :: front[i] in front && front[i] in ids[..n];
      if pattern(t.nodes[ids[n]].name) then front + [ids[n]] else front
  }

  /** "select ... from nodes where parent_id = :id and match(:pattern, node_name)", in key order. */
  function Matching(t: Tables, dir: nat, pattern: string -> bool): seq<nat> {
    Select(t, Children(t, dir), pattern)
  }

  function MatchingNames(t: Tables, dir: nat, pattern: string -> bool): seq<string> {
    NamesOf(t, Matching(t, dir, pattern))
  }

  /** list_db's use of the caller's vector, which nobody clears: one match is appended, several replace
      the contents, none leaves them. */
  function ListInto(entries: seq<string>, names: seq<string>): seq<string> {
    if |names| == 0 then entries else if |names| == 1 then entries + names else names
  }

  /** One clean run of the operation on the tables as they are at begin. */
  function Perform(t: Tables, path: string, node: nat, isDir: bool, op: Op, now: string): Outcome {
    match op
    case CreateEntry(parents) =>
      (match Find(t, path, false, Make(parents, false), now)
       case Thrown(e) => Threw(t, e, node)
       case Reached(t', n, dir) => if n == 0 || dir then Threw(t, ALREADY_EXISTS, n) else Done(t', n, isDir, Nothing))
    case CreateDirectory(parents) =>
      (match Find(t, path, false, Make(parents, true), now)
       case Thrown(e) => Threw(t, e, node)
       case Reached(t', n, dir) => if n == 0 || !dir then Threw(t, ALREADY_EXISTS, n) else Done(t', n, isDir, Nothing))
    case _ =>
      match Bind(t, path, node, isDir, op, now)
      case Unbound(e) => Threw(t, e, node)
      case Bound(n, dir) => if n == 0 then Threw(t, BAD_PARAMETER, n) else OnNode(t, n, dir, op, now)
  }

  /** The operation once its node is known. Attribute operations do not ask whether it still exists. */
  function OnNode(t: Tables, n: nat, isDir: bool, op: Op, now: string): Outcome
    requires !Creates(op)
  {
    match op
    case Remove =>
      if n !in t.nodes then Threw(t, BAD_PARAMETER, n) else Done(Pruned(t, n, true, now), n, isDir, Nothing)
    case RemoveDirectory =>
      if n !in t.nodes then Threw(t, BAD_PARAMETER, n) else Done(Pruned(t, n, false, now), n, isDir, Nothing)
    case Store(content) =>
      if n !in t.nodes then Threw(t, BAD_PARAMETER, n) else Done(PutData(t, n, content, now), n, isDir, Nothing)
    case Retrieve =>
      if n !in t.nodes then Threw(t, BAD_PARAMETER, n)
      else if n !in t.data then Threw(t, NO_SUCCESS, n)
      else Done(t, n, isDir, Value(t.data[n], false))
    case List(pattern, entries) =>
      if n !in t.nodes then Threw(t, BAD_PARAMETER, n)
      else Done(t, n, isDir, Names(ListInto(entries, MatchingNames(t, n, pattern))))
    case SetAttribute(key, value, isVector) =>
      if Count(t.meta, n, key) == 0 then Done(InsertMeta(t, n, key, value, isVector), n, isDir, Nothing)
      else Done(t.(meta := Overwrite(t.meta, n, key, value, isVector)), n, isDir, Nothing)
    case RemoveAttribute(key) =>
      if Count(t.meta, n, key) == 0 then Threw(t, DOES_NOT_EXIST, n)
      else Done(t.(meta := WithoutKey(t.meta, n, key)), n, isDir, Nothing)
    case GetAttribute(key) =>
      if Count(t.meta, n, key) == 0 then Threw(t, NO_SUCCESS, n)
      else
        var r := FirstRow(t.meta, n, key);
        Done(t, n, isDir, Value(r.value, r.isVector))
  }

  predicate Creates(op: Op) {
    op.CreateEntry? || op.CreateDirectory?
  }

  /** The operations that check whether the node still exists. */
  predicate Checked(op: Op) {
    op.Remove? || op.RemoveDirectory? || op.List? || op.Store? || op.Retrieve?
  }

  /** They are those that refuse a node that is not there; attribute operations do not notice. */
  lemma CheckedIff(t: Tables, n: nat, isDir: bool, op: Op, now: string)
    requires n !in t.nodes && !Creates(op)
    ensures Checked(op) <==> OnNode(t, n, isDir, op, now) == Threw(t, BAD_PARAMETER, n)
  {
  }

  // ------------------------------------------------------------- what every operation keeps

  /** Rows never change and ids never come back: what is there now and was allotted before, was there
      before with the same name, parent and kind. */
  predicate Evolves(t: Tables, t': Tables) {
    t.next <= t'.next && forall i | i in t'.nodes && i < t.next :: i in t.nodes && t'.nodes[i] == t.nodes[i]
  }

  lemma OverwriteKeepsBase(t: Tables, n: nat, key: string, value: string, isVector: bool)
    requires Base(t)
    ensures Base(t.(meta := Overwrite(t.meta, n, key, value, isVector)))
  {
    var r := Overwrite(t.meta, n, key, value, isVector);
    assert forall i | 0 <= i < |t.meta| :: r[i].node == t.meta[i].node && r[i].key == t.meta[i].key;
    forall x | x in r ensures 1 <= x.node < t.next {
      var i :| 0 <= i < |r| && r[i] == x;
      assert t.meta[i] in t.meta;
    }
  }

  lemma BoundBelowNext(t: Tables, path: string, flag: bool, mode: Mode, now: string)
    requires Base(t) && Find(t, path, flag, mode, now).Reached?
    ensures var w := Find(t, path, flag, mode, now);
            Base(w.t) && Evolves(t, w.t) && w.node < w.t.next && (mode.Look? ==> w.t == t)
  {
    TokensAreClean(path, '/');
    MakeGrows(t, ROOT, flag, Tokens(path, '/'), mode, now);
    if mode.Look? { LookIsResolve(t, ROOT, flag, Tokens(path, '/'), now); }
  }

  lemma OnNodeKeepsBase(t: Tables, n: nat, isDir: bool, op: Op, now: string)
    requires Base(t) && 1 <= n < t.next && !Creates(op)
    requires OnNode(t, n, isDir, op, now).Done?
    ensures var r := OnNode(t, n, isDir, op, now);
            Base(r.t) && Evolves(t, r.t) && r.node == n && r.t.next == t.next
  {
    match op
    case Remove => PrunedKeepsBase(t, n, true, now);
    case RemoveDirectory => PrunedKeepsBase(t, n, false, now);
    case Store(content) => PutKeepsBase(t, n, content, now);
    case SetAttribute(key, value, isVector) =>
      if Count(t.meta, n, key) == 0 {
        KeyedAppend(t.meta, MetaRow(n, key, value, isVector));
      } else {
        OverwriteKeepsBase(t, n, key, value, isVector);
      }
    case RemoveAttribute(key) => WithoutKeyKeepsKeyed(t.meta, n, key);
    case _ =>
  }

  /** No hypothesis at all: whatever node number below the counter a caller has cached, an operation
      keeps the base invariant, changes no node row and reuses no id. */
  lemma PerformKeepsBase(t: Tables, path: string, node: nat, isDir: bool, op: Op, now: string)
    requires Base(t) && (Creates(op) || node < t.next) && Perform(t, path, node, isDir, op, now).Done?
    ensures var r := Perform(t, path, node, isDir, op, now);
            Base(r.t) && Evolves(t, r.t) && 1 <= r.node < r.t.next
  {
    match op
    case CreateEntry(parents) => BoundBelowNext(t, path, false, Make(parents, false), now);
    case CreateDirectory(parents) => BoundBelowNext(t, path, false, Make(parents, true), now);
    case _ =>
      var b := Bind(t, path, node, isDir, op, now);
      BindBelowNext(t, path, node, isDir, op, now);
      OnNodeKeepsBase(t, b.node, b.isDir, op, now);
  }

  lemma BindBelowNext(t: Tables, path: string, node: nat, isDir: bool, op: Op, now: string)
    requires Base(t) && node < t.next && !Creates(op)
    requires Bind(t, path, node, isDir, op, now).Bound?
    ensures Bind(t, path, node, isDir, op, now).node < t.next
  {
    if node == 0 {
      if Find(t, path, false, Look, "").Reached? { BoundBelowNext(t, path, false, Look, ""); }
      if Find(t, path, isDir, Look, "").Reached? { BoundBelowNext(t, path, isDir, Look, ""); }
    }
  }

  // ------------------------------------------------------- when an operation keeps the tree

  /** What a caller has to see to before the call for the tables to stay a tree. */
  predicate Careful(t: Tables, path: string, node: nat, isDir: bool, op: Op, now: string)
    requires Perform(t, path, node, isDir, op, now).Done?
  {
    var n := Perform(t, path, node, isDir, op, now).node;
    match op
    case CreateEntry(parents) => InsertsUnderDirs(t, ROOT, Tokens(path, '/'), Make(parents, false), now)
    case CreateDirectory(parents) => InsertsUnderDirs(t, ROOT, Tokens(path, '/'), Make(parents, true), now)
    case _ => CarefulOn(t, n, op)
  }

  predicate CarefulOn(t: Tables, n: nat, op: Op) {
    match op
    case Remove => n != ROOT && Childless(t, n)
    case RemoveDirectory => n != ROOT && n !in t.data
    case Store(_) => n in t.nodes && !t.nodes[n].isDir
    case _ => true
  }

  lemma PutKeepsTreeIff(t: Tables, n: nat, content: string, now: string)
    requires Tree(t) && n in t.nodes
    ensures Tree(PutData(t, n, content, now)) <==> !t.nodes[n].isDir
  {
    var t' := PutData(t, n, content, now);
    assert RowOk(n, t.nodes[n], t.next);
    PutKeepsBase(t, n, content, now);
    forall i | i in t'.nodes && i != ROOT ensures HasParent(t', i) { assert HasParent(t, i); }
    assert n in t'.data;
  }

  lemma MetaOnlyKeepsTree(t: Tables, m: seq<MetaRow>)
    requires Tree(t) && Base(t.(meta := m))
    ensures Tree(t.(meta := m))
  {
    var t' := t.(meta := m);
    forall i | i in t'.nodes && i != ROOT ensures HasParent(t', i) { assert HasParent(t, i); }
  }

  lemma OnNodeKeepsTreeIff(t: Tables, n: nat, isDir: bool, op: Op, now: string)
    requires Tree(t) && 1 <= n < t.next && !Creates(op)
    requires OnNode(t, n, isDir, op, now).Done?
    ensures var r := OnNode(t, n, isDir, op, now);
            r.node == n && (Tree(r.t) <==> CarefulOn(t, n, op))
  {
    OnNodeKeepsBase(t, n, isDir, op, now);
    var r := OnNode(t, n, isDir, op, now);
    if op.Remove? {
      PrunedKeepsTreeIff(t, n, true, now);
    } else if op.RemoveDirectory? {
      PrunedKeepsTreeIff(t, n, false, now);
    } else if op.Store? {
      PutKeepsTreeIff(t, n, op.content, now);
    } else {
      MetaOnlyKeepsTree(t, r.t.meta);
    }
  }

  /** An operation that commits keeps the tree exactly when it was a careful one. */
  lemma PerformKeepsTreeIff(t: Tables, path: string, node: nat, isDir: bool, op: Op, now: string)
    requires Tree(t) && (Creates(op) || node < t.next) && Perform(t, path, node, isDir, op, now).Done?
    ensures Tree(Perform(t, path, node, isDir, op, now).t) <==> Careful(t, path, node, isDir, op, now)
  {
    var toks := Tokens(path, '/');
    TokensAreClean(path, '/');
    if op.CreateEntry? {
      MakeKeepsTreeIff(t, ROOT, false, toks, Make(op.parents, false), now);
    } else if op.CreateDirectory? {
      MakeKeepsTreeIff(t, ROOT, false, toks, Make(op.parents, true), now);
    } else {
      var b := Bind(t, path, node, isDir, op, now);
      BindBelowNext(t, path, node, isDir, op, now);
      OnNodeKeepsTreeIff(t, b.node, b.isDir, op, now);
    }
  }

  /** A create that commits a tree returns a node of the kind asked for exactly unless its path climbs
      with ".." out of an entry and ends below the root. */
  lemma CreatedKindIff(t: Tables, path: string, node: nat, isDir: bool, op: Op, now: string)
    requires Base(t) && Creates(op) && Perform(t, path, node, isDir, op, now).Done?
    requires Tree(Perform(t, path, node, isDir, op, now).t)
    ensures var r := Perform(t, path, node, isDir, op, now);
            && Resolve(r.t, ROOT, Tokens(path, '/')) == At(r.node) && r.node in r.t.nodes
            && (r.t.nodes[r.node].isDir == op.CreateDirectory? <==>
                Normalize(Tokens(path, '/')) == [] || !ClimbsFromLeaf(r.t, Tokens(path, '/')))
  {
    var t' := Perform(t, path, node, isDir, op, now).t;
    MakeIsMkdirP(t, path, false, op.parents, op.CreateDirectory?, now, now);
    LookIsResolve(t', ROOT, false, Tokens(path, '/'), now);
    FlagRightIff(t', path, now);
  }

  // ------------------------------------------------------------------------- attributes

  /** After set_attribute, get_attribute gives the value and the vector flag back, and every other
      attribute of every node is as it was. */
  lemma GetAfterSet(t: Tables, n: nat, isDir: bool, key: string, value: string, isVector: bool, now: string)
    requires Base(t) && 1 <= n < t.next
    ensures var r := OnNode(t, n, isDir, SetAttribute(key, value, isVector), now);
            && r.Done?
            && OnNode(r.t, n, isDir, GetAttribute(key), now) == Done(r.t, n, isDir, Value(value, isVector))
            && (forall x: MetaRow | x.node != n || x.key != key :: x in r.t.meta <==> x in t.meta)
            && r.t.nodes == t.nodes && r.t.data == t.data && r.t.next == t.next
  {
    if Count(t.meta, n, key) == 0 {
      AppendedRow(t.meta, n, key, value, isVector);
    } else {
      OverwriteRows(t.meta, n, key, value, isVector);
    }
  }

  /** Every row for the key now says what was set, and there is one. */
  predicate SaysOnly(m: seq<MetaRow>, row: MetaRow) {
    && Count(m, row.node, row.key) != 0
    && forall x | x in m && Matches(x, row.node, row.key) :: x == row
  }

  lemma AppendedRow(m: seq<MetaRow>, n: nat, key: string, value: string, isVector: bool)
    requires Count(m, n, key) == 0
    ensures var row := MetaRow(n, key, value, isVector);
            SaysOnly(m + [row], row) && (forall x: MetaRow | x.node != n || x.key != key :: x in m + [row] <==> x in m)
  {
    var row := MetaRow(n, key, value, isVector);
    assert row in m + [row];
    forall x | x in m + [row] ensures x in m || x == row { }
  }

  lemma OverwriteRows(m: seq<MetaRow>, n: nat, key: string, value: string, isVector: bool)
    requires Count(m, n, key) != 0
    ensures var r := Overwrite(m, n, key, value, isVector);
            && SaysOnly(r, MetaRow(n, key, value, isVector))
            && (forall x: MetaRow | x.node != n || x.key != key :: x in r <==> x in m)
  {
    var r := Overwrite(m, n, key, value, isVector);
    var y :| y in m && Matches(y, n, key);
    var k :| 0 <= k < |m| && m[k] == y;
    assert r[k] in r && Matches(r[k], n, key);
    forall x | x in m && !Matches(x, n, key) ensures x in r {
      var i :| 0 <= i < |m| && m[i] == x;
      assert r[i] == x;
    }
  }

  /** In every reachable state a node has at most one row per key, so removing an attribute and asking
      for it again fails, and the row removed was the only one. */
  lemma GetAfterRemove(t: Tables, n: nat, isDir: bool, key: string, now: string)
    requires Base(t) && OnNode(t, n, isDir, RemoveAttribute(key), now).Done?
    ensures var r := OnNode(t, n, isDir, RemoveAttribute(key), now);
            && OnNode(r.t, n, isDir, GetAttribute(key), now) == Threw(r.t, NO_SUCCESS, n)
            && |r.t.meta| == |t.meta| - 1
            && (forall x: MetaRow | x.node != n || x.key != key :: x in r.t.meta <==> x in t.meta)
  {
    CountOnce(t.meta, n, key);
    WithoutKeyLength(t.meta, n, key);
  }

  lemma {:induction false} CountOnce(m: seq<MetaRow>, n: nat, key: string)
    requires KeyedOnce(m)
    ensures Count(m, n, key) <= 1
  {
    if m != [] {
      var l := |m| - 1;
      CountOnce(m[..l], n, key);
      if Matches(m[l], n, key) {
        forall x | x in m[..l] ensures !Matches(x, n, key) {
          var i :| 0 <= i < l && m[..l][i] == x;
          assert m[i] == x;
        }
      }
    }
  }

  lemma {:induction false} WithoutKeyLength(m: seq<MetaRow>, n: nat, key: string)
    ensures |WithoutKey(m, n, key)| + Count(m, n, key) == |m|
  {
    if m != [] { WithoutKeyLength(m[..|m| - 1], n, key); }
  }

  /** Reading back what was stored. Nothing else changes but the modification time of the node. */
  lemma RetrieveAfterStore(t: Tables, n: nat, isDir: bool, content: string, now: string)
    requires OnNode(t, n, isDir, Store(content), now).Done?
    ensures var r := OnNode(t, n, isDir, Store(content), now);
            && OnNode(r.t, n, isDir, Retrieve, now) == Done(r.t, n, isDir, Value(content, false))
            && (forall i | i != n :: (i in r.t.data <==> i in t.data) && (i in t.data ==> r.t.data[i] == t.data[i]))
            && r.t.nodes == t.nodes && r.t.next == t.next
            && (forall x | x in r.t.meta && x.node == n && x.key == "utime" :: x.value == now)
            && (forall x: MetaRow | x.node != n || x.key != "utime" :: x in r.t.meta <==> x in t.meta)
  {
    TouchIs(t.meta, n, now);
  }

  /** A new database answers for its root: two time stamps, no other attribute ... */
  lemma FreshAttributes(key: string, now: string, later: string)
    ensures var t := Initial(now);
            Perform(t, "/", 0, false, GetAttribute(key), later) ==
            if key == "ctime" || key == "utime" then Done(t, 1, true, Value(now, false)) else Threw(t, NO_SUCCESS, 1)
  {
    FreshRoot(now);
    FreshStamps(now, key);
  }

  /** ... and nothing below it. */
  lemma FreshListing(pattern: string -> bool, now: string, later: string)
    ensures Perform(Initial(now), "/", 0, false, List(pattern, []), later) == Done(Initial(now), 1, false, Names([]))
  {
    var t := Initial(now);
    FreshRoot(now);
    assert Children(t, 1) == [];
    assert MatchingNames(t, 1, pattern) == [];
  }

  lemma FreshRoot(now: string)
    ensures Find(Initial(now), "/", false, Look, "") == Reached(Initial(now), 1, true)
  {
    assert "/"[1..] == "";
    assert Tokens("/", '/') == [];
  }

  lemma FreshStamps(now: string, key: string)
    ensures var m := Initial(now).meta;
            if key == "ctime" || key == "utime" then
              Count(m, 1, key) != 0 && FirstRow(m, 1, key) == MetaRow(1, key, now, false)
            else Count(m, 1, key) == 0
  {
    var m := Initial(now).meta;
    assert m[0] in m && m[1] in m;
  }

  // ---------------------------------------------------------------------------- listing

  /** list, with an empty vector, reports exactly the matching names that a lookup below the directory
      finds, each once, and changes nothing. */
  lemma ListIsExact(t: Tables, n: nat, isDir: bool, pattern: string -> bool, now: string)
    requires Base(t) && n != 0 && OnNode(t, n, isDir, List(pattern, []), now).Done?
    ensures var r := OnNode(t, n, isDir, List(pattern, []), now);
            && r.t == t && r.answer.Names?
            && (forall name :: name in r.answer.names <==> Lookup(t, name, n) != 0 && pattern(name))
            && (forall i, j | 0 <= i < j < |r.answer.names| :: r.answer.names[i] != r.answer.names[j])
  {
    NamesAreExact(t, n, pattern);
    var names := MatchingNames(t, n, pattern);
    assert [] + names == names;
  }

  lemma NamesAreExact(t: Tables, n: nat, pattern: string -> bool)
    requires Base(t) && n != 0
    ensures var names := MatchingNames(t, n, pattern);
            && (forall name :: name in names <==> Lookup(t, name, n) != 0 && pattern(name))
            && (forall i, j | 0 <= i < j < |names| :: names[i] != names[j])
  {
    ChildrenAre(t, n);
    var ids := Matching(t, n, pattern);
    forall name ensures name in NamesOf(t, ids) <==> Lookup(t, name, n) != 0 && pattern(name) {
      NameIsListed(t, n, ids, pattern, name);
    }
    forall i, j | 0 <= i < j < |ids| ensures NamesOf(t, ids)[i] != NamesOf(t, ids)[j] {
      assert ids[i] in ids && ids[j] in ids && ids[i] < ids[j];
    }
  }

  lemma NameIsListed(t: Tables, n: nat, ids: seq<nat>, pattern: string -> bool, name: string)
    requires Base(t) && n != 0
    requires forall i :: i in ids <==> i in t.nodes && t.nodes[i].parent == n && pattern(t.nodes[i].name)
    ensures name in NamesOf(t, ids) <==> Lookup(t, name, n) != 0 && pattern(name)
  {
    var names := NamesOf(t, ids);
    if name in names {
      var i :| 0 <= i < |names| && names[i] == name;
      assert ids[i] in ids;
      LookupIs(t, name, n, ids[i]);
    }
    if Lookup(t, name, n) != 0 && pattern(name) {
      LookupSound(t, name, n);
      var i :| 0 <= i < |ids| && ids[i] == Lookup(t, name, n);
      assert names[i] == name;
    }
  }
}
