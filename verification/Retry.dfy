/** database_connection::execute: begin, attempt, commit; on a database error roll back and, when the
    error is resolvable, start over. The usual reason for that is another connection at work, so every
    attempt begins on its own tables. */
module Retry {
  import opened Errors
  import opened Operations
  import opened Removal
  import opened Schema
  import opened Text
  import opened Walk

  /** A database error during one attempt. resolvable: what error_is_resolvable says. bound: the node and
      is_dir references had been assigned. listed: list_db had reached the caller's vector; left is what
      an unfinished query of several names leaves in it. torn: what the attempt had made of the tables.
      next: the tables when the next attempt begins, after whatever others committed meanwhile. */
  datatype Failure = Failure(resolvable: bool, bound: bool, listed: bool, left: seq<string>, torn: Tables, next: Tables)

  /** What the caller of execute lends to the attempts by reference: node, is_dir and, in List, the entries. */
  datatype Refs = Refs(node: nat, isDir: bool, op: Op)

  /** The caller's vector after an attempt that failed after reaching it; resize makes room for several names. */
  function ListTorn(entries: seq<string>, names: seq<string>, left: seq<string>): seq<string> {
    if |names| > 1 && |left| == |names| then left else ListInto(entries, names)
  }

  function TornOp(t: Tables, n: nat, op: Op, f: Failure): Op {
    if op.List? && f.listed && n in t.nodes then
      op.(entries := ListTorn(op.entries, MatchingNames(t, n, op.pattern), f.left))
    else op
  }

  /** The references after a failed attempt; they are not reset. The stamp of the attempt has no part in them
      (BindIgnoresStamp). */
  function AfterFailure(t: Tables, path: string, rf: Refs, f: Failure): Refs {
    var b := Bind(t, path, rf.node, rf.isDir, rf.op, "");
    if (f.bound || f.listed) && b.Bound? then Refs(b.node, b.isDir, TornOp(t, b.node, rf.op, f)) else rf
  }

  /** What execute amounts to when its attempts fail as listed and the next one runs clean. An error that
      is not resolvable ends the call with the tables as at the begin of that attempt. */
  function Executed(t: Tables, path: string, node: nat, isDir: bool, op: Op, now: string,
                    failures: seq<Failure>): Outcome
    decreases |failures|
  {
    if failures == [] then Perform(t, path, node, isDir, op, now)
    else
      var rf := AfterFailure(t, path, Refs(node, isDir, op), failures[0]);
      if !failures[0].resolvable then Threw(t, NO_SUCCESS, rf.node)
      else Executed(failures[0].next, path, rf.node, rf.isDir, rf.op, now, failures[1..])
  }

  // --------------------------------------------------------------------------- the last attempt

  predicate AllResolvable(failures: seq<Failure>) {
    forall f | f in failures :: f.resolvable
  }

  /** The tables at the begin of the last attempt. */
  function LastBegun(t: Tables, failures: seq<Failure>): Tables
    decreases |failures|
  {
    if failures == [] || !failures[0].resolvable then t else LastBegun(failures[0].next, failures[1..])
  }

  /** The references at the begin of the last attempt, or at the end of one that is not repeated. */
  function LastRefs(t: Tables, path: string, rf: Refs, failures: seq<Failure>): Refs
    decreases |failures|
  {
    if failures == [] then rf
    else
      var rf' := AfterFailure(t, path, rf, failures[0]);
      if !failures[0].resolvable then rf' else LastRefs(failures[0].next, path, rf', failures[1..])
  }

  /** Nothing of an earlier attempt is left but its references: the call is a clean run of the last attempt
      on the tables as that attempt finds them, or NoSuccess with the tables of the last begin. */
  lemma {:induction false} ExecutedIsLastAttempt(t: Tables, path: string, node: nat, isDir: bool, op: Op, now: string,
                                                 failures: seq<Failure>)
    ensures var r, u, rf := Executed(t, path, node, isDir, op, now, failures), LastBegun(t, failures),
                            LastRefs(t, path, Refs(node, isDir, op), failures);
            r == if AllResolvable(failures) then Perform(u, path, rf.node, rf.isDir, rf.op, now)
                 else Threw(u, NO_SUCCESS, rf.node)
    decreases |failures|
  {
    if failures != [] {
      assert failures == [failures[0]] + failures[1..];
      var rf := AfterFailure(t, path, Refs(node, isDir, op), failures[0]);
      if failures[0].resolvable {
        ExecutedIsLastAttempt(failures[0].next, path, rf.node, rf.isDir, rf.op, now, failures[1..]);
      }
    }
  }

  /** A create does not look at the node reference: retried, it does what it would have done at first try
      on the tables of its last attempt. Only the number left behind by a refusal may be another. */
  lemma {:induction false} CreateRetries(t: Tables, path: string, node: nat, isDir: bool, op: Op, now: string,
                                         failures: seq<Failure>)
    requires Creates(op) && AllResolvable(failures)
    ensures var r, clean := Executed(t, path, node, isDir, op, now, failures),
                            Perform(LastBegun(t, failures), path, node, isDir, op, now);
            if clean.Done? then r == clean else r.Threw? && r.t == clean.t && r.error == clean.error
  {
    ExecutedIsLastAttempt(t, path, node, isDir, op, now, failures);
    CreateKeepsRefs(t, path, Refs(node, isDir, op), failures);
  }

  lemma {:induction false} CreateKeepsRefs(t: Tables, path: string, rf: Refs, failures: seq<Failure>)
    requires Creates(rf.op)
    ensures var rf' := LastRefs(t, path, rf, failures); rf'.op == rf.op && rf'.isDir == rf.isDir
    decreases |failures|
  {
    if failures != [] && failures[0].resolvable {
      CreateKeepsRefs(failures[0].next, path, AfterFailure(t, path, rf, failures[0]), failures[1..]);
    }
  }

  /** A cached node number stays; so, but for list, the call is one clean run on the last tables. */
  lemma {:induction false} CachedRetries(t: Tables, path: string, node: nat, isDir: bool, op: Op, now: string,
                                         failures: seq<Failure>)
    requires node != 0 && !Creates(op)
    ensures var r, u := Executed(t, path, node, isDir, op, now, failures), LastBegun(t, failures);
            && r.node == node
            && (!op.List? ==>
                  r == if AllResolvable(failures) then Perform(u, path, node, isDir, op, now)
                       else Threw(u, NO_SUCCESS, node))
  {
    ExecutedIsLastAttempt(t, path, node, isDir, op, now, failures);
    CachedKeepsRefs(t, path, Refs(node, isDir, op), failures);
  }

  lemma {:induction false} CachedKeepsRefs(t: Tables, path: string, rf: Refs, failures: seq<Failure>)
    requires rf.node != 0 && !Creates(rf.op)
    ensures var rf' := LastRefs(t, path, rf, failures);
            && rf'.node == rf.node && rf'.isDir == rf.isDir
            && if rf.op.List? then rf'.op.List? && rf'.op.pattern == rf.op.pattern else rf'.op == rf.op
    decreases |failures|
  {
    if failures != [] && failures[0].resolvable {
      CachedKeepsRefs(failures[0].next, path, AfterFailure(t, path, rf, failures[0]), failures[1..]);
    }
  }

  // ------------------------------------------------- a number that an earlier attempt has bound

  /** The same for the caller: the tables, and the answer or the error. The references are locals of execute's
      callers. */
  predicate Alike(r: Outcome, s: Outcome) {
    r.t == s.t && if r.Done? then s.Done? && s.answer == r.answer else s.Threw? && s.error == r.error
  }

  /** What makes an operation on one living node and on another come to the same: it reads the same, or it
      stores what both already hold, at a time both already bear. */
  predicate SameEffect(u: Tables, k: nat, m: nat, op: Op, now: string)
    requires Checked(op) && k in u.nodes && m in u.nodes
  {
    match op
    case Store(content) => Holds(u, k, content, now) && Holds(u, m, content, now)
    case Retrieve => (k in u.data <==> m in u.data) && (k in u.data ==> u.data[k] == u.data[m])
    case List(pattern, entries) =>
      ListInto(entries, MatchingNames(u, k, pattern)) == ListInto(entries, MatchingNames(u, m, pattern))
    case _ => false
  }

  predicate Holds(u: Tables, n: nat, content: string, now: string) {
    n in u.data && u.data[n] == content && forall x | x in u.meta && Matches(x, n, "utime") :: x.value == now
  }

  /** Acting on node m, found earlier, shows no difference to acting where the path leads now: it leads to m, or
      both are refused alike, or both come to the same. */
  predicate NumberHidden(u: Tables, path: string, m: nat, isDir: bool, op: Op, now: string)
    requires Checked(op)
  {
    match Bind(u, path, 0, isDir, op, "")
    case Unbound(e) => op.Retrieve? && e == NO_SUCCESS && m in u.nodes && m !in u.data
    case Bound(k, _) => k == m || if k in u.nodes && m in u.nodes then SameEffect(u, k, m, op, now)
                                  else k !in u.nodes && m !in u.nodes
  }

  lemma PutsAlikeIff(u: Tables, k: nat, m: nat, content: string, now: string)
    requires k != m
    ensures PutData(u, k, content, now) == PutData(u, m, content, now) <==>
            Holds(u, k, content, now) && Holds(u, m, content, now)
  {
    var a, b := PutData(u, k, content, now), PutData(u, m, content, now);
    if a == b {
      assert a.data[k] == content == a.data[m] && b.data[k] == content;
      StampsAlike(u.meta, k, m, now);
      StampsAlike(u.meta, m, k, now);
    }
    if Holds(u, k, content, now) && Holds(u, m, content, now) {
      assert a.data == u.data == b.data;
      StampIdle(u.meta, k, now);
      StampIdle(u.meta, m, now);
    }
  }

  lemma StampsAlike(rows: seq<MetaRow>, k: nat, m: nat, now: string)
    requires k != m && Touch(rows, k, now) == Touch(rows, m, now)
    ensures forall x | x in rows && Matches(x, k, "utime") :: x.value == now
  {
    forall x | x in rows && Matches(x, k, "utime") ensures x.value == now {
      var i :| 0 <= i < |rows| && rows[i] == x;
      assert Touch(rows, k, now)[i] == Touch(rows, m, now)[i];
    }
  }

  lemma StampIdle(rows: seq<MetaRow>, n: nat, now: string)
    requires forall x | x in rows && Matches(x, n, "utime") :: x.value == now
    ensures Touch(rows, n, now) == rows
  {
    forall i | 0 <= i < |rows| ensures Touch(rows, n, now)[i] == rows[i] { assert rows[i] in rows; }
  }

  lemma RemovalsDiffer(u: Tables, k: nat, m: nat, isEntry: bool, now: string)
    requires Base(u) && k in u.nodes && m in u.nodes && k != m
    ensures Pruned(u, k, isEntry, now) != Pruned(u, m, isEntry, now)
  {
    var a, b := if k < m then k else m, if k < m then m else k;
    assert Under(u.nodes, a, isEntry, a);
    if a in Doomed(u.nodes, b, isEntry) { DoomedAreLarger(u, b, isEntry, a); }
    assert a !in Pruned(u, a, isEntry, now).nodes && a in Pruned(u, b, isEntry, now).nodes;
  }

  lemma OnNodesAlikeIff(u: Tables, k: nat, m: nat, isDir: bool, op: Op, now: string)
    requires Base(u) && Checked(op) && k in u.nodes && m in u.nodes && k != m
    ensures Alike(OnNode(u, m, isDir, op, now), OnNode(u, k, isDir, op, now)) <==> SameEffect(u, k, m, op, now)
  {
    match op
    case Remove => RemovalsDiffer(u, k, m, true, now);
    case RemoveDirectory => RemovalsDiffer(u, k, m, false, now);
    case Store(content) => PutsAlikeIff(u, k, m, content, now);
    case _ =>
  }

  lemma {:induction false} WalkNeverSaysBadParameter(t: Tables, cur: nat, flag: bool, toks: seq<string>, now: string)
    ensures WalkFrom(t, cur, flag, toks, Look, now) != Thrown(BAD_PARAMETER)
    decreases |toks|
  {
    if toks != [] {
      if toks[0] == "." {
        WalkNeverSaysBadParameter(t, cur, flag, toks[1..], now);
      } else if toks[0] == ".." {
        if cur != ROOT && cur in t.nodes { WalkNeverSaysBadParameter(t, t.nodes[cur].parent, flag, toks[1..], now); }
      } else {
        var id := Lookup(t, toks[0], cur);
        if id != 0 { WalkNeverSaysBadParameter(t, id, t.nodes[id].isDir, toks[1..], now); }
      }
    }
  }

  /** A checked operation on a node: refused if it is not there. */
  function OnNumber(u: Tables, n: nat, isDir: bool, op: Op, now: string): Outcome
    requires Checked(op)
  {
    if n in u.nodes then OnNode(u, n, isDir, op, now) else Threw(u, BAD_PARAMETER, n)
  }

  lemma PerformIsOnNumber(u: Tables, path: string, n: nat, isDir: bool, op: Op, now: string)
    requires Base(u) && Checked(op)
    ensures Perform(u, path, n, isDir, op, now) ==
            match Bind(u, path, n, isDir, op, "")
            case Unbound(e) => Threw(u, e, n)
            case Bound(k, _) => OnNumber(u, k, isDir, op, now)
  {
  }

  lemma NumberHiddenIff(u: Tables, path: string, m: nat, isDir: bool, op: Op, now: string)
    requires Base(u) && m != 0 && Checked(op)
    ensures Alike(Perform(u, path, m, isDir, op, now), Perform(u, path, 0, isDir, op, now)) <==>
            NumberHidden(u, path, m, isDir, op, now)
  {
    PerformIsOnNumber(u, path, m, isDir, op, now);
    PerformIsOnNumber(u, path, 0, isDir, op, now);
    match Bind(u, path, 0, isDir, op, "")
    case Unbound(e) => RefusedAlikeIff(u, path, m, isDir, op, now, e);
    case Bound(k, _) => NumbersAlikeIff(u, k, m, isDir, op, now);
  }

  lemma RefusedAlikeIff(u: Tables, path: string, m: nat, isDir: bool, op: Op, now: string, e: ErrorCode)
    requires Checked(op) && Bind(u, path, 0, isDir, op, "") == Unbound(e)
    ensures Alike(OnNumber(u, m, isDir, op, now), Threw(u, e, 0)) <==>
            op.Retrieve? && e == NO_SUCCESS && m in u.nodes && m !in u.data
  {
    WalkNeverSaysBadParameter(u, ROOT, false, Tokens(path, '/'), "");
  }

  lemma NumbersAlikeIff(u: Tables, k: nat, m: nat, isDir: bool, op: Op, now: string)
    requires Base(u) && Checked(op)
    ensures Alike(OnNumber(u, m, isDir, op, now), OnNumber(u, k, isDir, op, now)) <==>
            (k == m || if k in u.nodes && m in u.nodes then SameEffect(u, k, m, op, now)
                       else k !in u.nodes && m !in u.nodes)
  {
    if k != m && k in u.nodes && m in u.nodes { OnNodesAlikeIff(u, k, m, isDir, op, now); }
  }

  /** A call without a number keeps the first one an attempt binds. Its caller can tell the outcome from a clean
      run on the tables of the last attempt exactly if there is such a number and it is not hidden there. */
  lemma BoundNumberShowsIff(t: Tables, path: string, isDir: bool, op: Op, now: string, failures: seq<Failure>)
    requires Checked(op) && AllResolvable(failures) && Base(LastBegun(t, failures))
    ensures var u, rf := LastBegun(t, failures), LastRefs(t, path, Refs(0, isDir, op), failures);
            Checked(rf.op) &&
            (!Alike(Executed(t, path, 0, isDir, op, now, failures), Perform(u, path, 0, isDir, rf.op, now)) <==>
             rf.node != 0 && !NumberHidden(u, path, rf.node, isDir, rf.op, now))
  {
    ExecutedIsLastAttempt(t, path, 0, isDir, op, now, failures);
    var u, rf := LastBegun(t, failures), LastRefs(t, path, Refs(0, isDir, op), failures);
    CheckedKeepsOp(t, path, Refs(0, isDir, op), failures);
    if rf.node != 0 { NumberHiddenIff(u, path, rf.node, isDir, rf.op, now); }
  }

  lemma {:induction false} CheckedKeepsOp(t: Tables, path: string, rf: Refs, failures: seq<Failure>)
    requires Checked(rf.op)
    ensures var rf' := LastRefs(t, path, rf, failures);
            && rf'.isDir == rf.isDir
            && if rf.op.List? then rf'.op.List? && rf'.op.pattern == rf.op.pattern else rf'.op == rf.op
    decreases |failures|
  {
    if failures != [] && failures[0].resolvable {
      CheckedKeepsOp(failures[0].next, path, AfterFailure(t, path, rf, failures[0]), failures[1..]);
    }
  }

  /** Some attempt found this number at the end of the path. */
  predicate FoundOnTheWay(t: Tables, path: string, isDir: bool, op: Op, failures: seq<Failure>, m: nat)
    decreases |failures|
  {
    && failures != []
    && (Bind(t, path, 0, isDir, op, "") == Bound(m, isDir)
        || (failures[0].resolvable && FoundOnTheWay(failures[0].next, path, isDir, op, failures[1..], m)))
  }

  lemma {:induction false} BoundNumberWasFound(t: Tables, path: string, rf: Refs, op: Op, failures: seq<Failure>)
    requires Checked(rf.op) && rf.node == 0 && LastRefs(t, path, rf, failures).node != 0
    requires if rf.op.List? then op.List? else rf.op == op
    ensures FoundOnTheWay(t, path, rf.isDir, op, failures, LastRefs(t, path, rf, failures).node)
    decreases |failures|
  {
    var rf' := AfterFailure(t, path, rf, failures[0]);
    if rf'.node == 0 {
      BoundNumberWasFound(failures[0].next, path, rf', op, failures[1..]);
    } else {
      if failures[0].resolvable { CachedKeepsRefs(failures[0].next, path, rf', failures[1..]); }
    }
  }

  /** The first attempt decides: the node it bound, attributes included, is the one that the next works on; if it
      bound none, the next starts from the path. */
  lemma FirstNumberDecides(t: Tables, path: string, isDir: bool, op: Op, now: string, f: Failure, n: nat, dir: bool)
    requires !Creates(op) && !op.List? && f.resolvable && n != 0
    requires match op
             case Remove => FindEntry(t, path, true) == Ok(n) && dir == isDir
             case Store(_) => FindEntry(t, path, true) == Ok(n) && dir == isDir
             case Retrieve => FindEntry(t, path, true) == Ok(n) && dir == isDir
             case RemoveDirectory => FindDirectory(t, path, true) == Ok(n) && dir == isDir
             case _ => Find(t, path, isDir, Look, "") == Reached(t, n, dir)
    ensures f.bound ==> Executed(t, path, 0, isDir, op, now, [f]) == OnNode(f.next, n, dir, op, now)
    ensures !f.bound && !f.listed ==>
              Executed(t, path, 0, isDir, op, now, [f]) == Perform(f.next, path, 0, isDir, op, now)
  {
    assert [f][1..] == [];
    assert Bind(t, path, 0, isDir, op, "") == Bound(n, dir);
  }

  // ---------------------------------------------------------------------- undisturbed retries

  /** Nobody else commits while the call goes on. */
  predicate Undisturbed(t: Tables, failures: seq<Failure>) {
    forall f | f in failures :: f.next == t
  }

  /** The flag a plain find starts with never shows in its result. */
  lemma {:induction false} InitialFlagIrrelevant(t: Tables, f: bool, g: bool, toks: seq<string>, now: string)
    ensures WalkFrom(t, ROOT, f, toks, Look, now) == WalkFrom(t, ROOT, g, toks, Look, now)
    decreases |toks|
  {
    if toks != [] && toks[0] == "." {
      InitialFlagIrrelevant(t, f, g, toks[1..], now);
    }
  }

  /** The stamp is written and never read. */
  lemma {:induction false} WalkIgnoresStamp(t: Tables, u: Tables, cur: nat, flag: bool, toks: seq<string>, mode: Mode,
                                            now: string, later: string)
    requires t.nodes == u.nodes && t.next == u.next
    ensures var w, x := WalkFrom(t, cur, flag, toks, mode, now), WalkFrom(u, cur, flag, toks, mode, later);
            if w.Thrown? then x == w else x.Reached? && x.node == w.node && x.isDir == w.isDir
    decreases |toks|
  {
    if toks != [] {
      var entry, rest := toks[0], toks[1..];
      if entry == "." {
        WalkIgnoresStamp(t, u, cur, flag, rest, mode, now, later);
      } else if entry == ".." {
        if cur != ROOT && cur in t.nodes { WalkIgnoresStamp(t, u, t.nodes[cur].parent, flag, rest, mode, now, later); }
      } else {
        var id := Lookup(t, entry, cur);
        if id != 0 {
          WalkIgnoresStamp(t, u, id, t.nodes[id].isDir, rest, mode, now, later);
        } else if mode.Make? && (mode.parents || IsLast(rest)) {
          var isDir := mode.dir || !IsLast(rest);
          WalkIgnoresStamp(InsertNode(t, entry, cur, isDir, now), InsertNode(u, entry, cur, isDir, later), t.next,
                           isDir, rest, mode, now, later);
        }
      }
    }
  }

  /** What an attempt binds does not depend on when it runs. */
  lemma BindIgnoresStamp(t: Tables, path: string, node: nat, isDir: bool, op: Op, now: string, later: string)
    ensures Bind(t, path, node, isDir, op, now) == Bind(t, path, node, isDir, op, later)
  {
    if Creates(op) {
      WalkIgnoresStamp(t, t, ROOT, false, Tokens(path, '/'), Make(op.parents, op.CreateDirectory?), now, later);
    }
  }

  /** On the same tables, starting over with the references a failed attempt left behind gives what a first
      run gives. */
  lemma RebindInvisible(t: Tables, path: string, node: nat, isDir: bool, op: Op, now: string, f: Failure)
    requires !op.List?
    ensures var rf := AfterFailure(t, path, Refs(node, isDir, op), f);
            rf.op == op && Perform(t, path, rf.node, rf.isDir, op, now) == Perform(t, path, node, isDir, op, now)
  {
    var rf := AfterFailure(t, path, Refs(node, isDir, op), f);
    BindIgnoresStamp(t, path, node, isDir, op, "", now);
    if path != "" && path[0] == '/' {
      InitialFlagIrrelevant(t, isDir, rf.isDir, Tokens(path, '/'), "");
    }
  }

  /** Undisturbed, retrying is invisible for every operation but list: if all failures are resolvable the
      outcome, tables, node and answer alike, is that of one clean run; otherwise NoSuccess. */
  lemma {:induction false} RetryIsInvisible(t: Tables, path: string, node: nat, isDir: bool, op: Op, now: string,
                                            failures: seq<Failure>)
    requires !op.List? && Undisturbed(t, failures)
    ensures var r := Executed(t, path, node, isDir, op, now, failures);
            if AllResolvable(failures) then r == Perform(t, path, node, isDir, op, now)
            else r.Threw? && r.t == t && r.error == NO_SUCCESS
    decreases |failures|
  {
    if failures != [] {
      assert failures == [failures[0]] + failures[1..];
      var rf := AfterFailure(t, path, Refs(node, isDir, op), failures[0]);
      RebindInvisible(t, path, node, isDir, op, now, failures[0]);
      if failures[0].resolvable { RetryIsInvisible(t, path, rf.node, rf.isDir, op, now, failures[1..]); }
    }
  }

  // ---------------------------------------------------------------------- the exception: list

  /** No failed attempt that reached the caller's vector had anything to put there. */
  predicate NothingListed(t: Tables, path: string, rf: Refs, failures: seq<Failure>)
    requires rf.op.List?
    decreases |failures|
  {
    failures != [] ==>
      var b, rf' := Bind(t, path, rf.node, rf.isDir, rf.op, ""), AfterFailure(t, path, rf, failures[0]);
      (failures[0].listed && b.Bound? && b.node in t.nodes ==> MatchingNames(t, b.node, rf.op.pattern) == []) &&
      (failures[0].resolvable ==> NothingListed(failures[0].next, path, rf', failures[1..]))
  }

  lemma {:induction false} NothingListedIff(t: Tables, path: string, rf: Refs, failures: seq<Failure>)
    requires rf.op.List?
    ensures LastRefs(t, path, rf, failures).op.List?
    ensures LastRefs(t, path, rf, failures).op.entries == [] <==>
            rf.op.entries == [] && NothingListed(t, path, rf, failures)
    ensures LastRefs(t, path, rf, failures).op.pattern == rf.op.pattern
    decreases |failures|
  {
    if failures != [] && failures[0].resolvable {
      NothingListedIff(failures[0].next, path, AfterFailure(t, path, rf, failures[0]), failures[1..]);
    }
  }

  /** list, called with an empty vector and retried, reports the matches of the tables it commits on exactly
      if there are several of them or no failed attempt had listed anything. */
  lemma ListRightIff(t: Tables, path: string, node: nat, isDir: bool, pattern: string -> bool, now: string,
                     failures: seq<Failure>)
    requires Executed(t, path, node, isDir, List(pattern, []), now, failures).Done?
    ensures var r, rf := Executed(t, path, node, isDir, List(pattern, []), now, failures),
                       Refs(node, isDir, List(pattern, []));
            && r.t == LastBegun(t, failures) && r.node in r.t.nodes && r.answer.Names?
            && (r.answer.names == MatchingNames(r.t, r.node, pattern) <==>
                |MatchingNames(r.t, r.node, pattern)| > 1 || NothingListed(t, path, rf, failures))
  {
    var op := List(pattern, []);
    var rf, u := LastRefs(t, path, Refs(node, isDir, op), failures), LastBegun(t, failures);
    ExecutedIsLastAttempt(t, path, node, isDir, op, now, failures);
    NothingListedIff(t, path, Refs(node, isDir, op), failures);
    ListDone(u, path, rf, now);
    ListIntoRightIff(rf.op.entries, MatchingNames(u, Perform(u, path, rf.node, rf.isDir, rf.op, now).node, pattern));
  }

  lemma ListDone(u: Tables, path: string, rf: Refs, now: string)
    requires rf.op.List? && Perform(u, path, rf.node, rf.isDir, rf.op, now).Done?
    ensures var r := Perform(u, path, rf.node, rf.isDir, rf.op, now);
            && r.t == u && r.node in u.nodes
            && r.answer == Names(ListInto(rf.op.entries, MatchingNames(u, r.node, rf.op.pattern)))
  {
  }

  lemma ListIntoRightIff(entries: seq<string>, names: seq<string>)
    ensures ListInto(entries, names) == names <==> |names| > 1 || entries == []
  {
    assert entries == [] ==> entries + names == names;
    assert entries != [] ==> |entries + names| != |names|;
  }

  /** Undisturbed and through a cached node: list is right exactly if no attempt failed after the append or
      there is not just one match. */
  lemma ListRetryVisibleIff(t: Tables, path: string, node: nat, isDir: bool, pattern: string -> bool, now: string,
                            failures: seq<Failure>)
    requires node in t.nodes && node != 0 && Undisturbed(t, failures) && AllResolvable(failures)
    ensures Executed(t, path, node, isDir, List(pattern, []), now, failures) ==
            Perform(t, path, node, isDir, List(pattern, []), now)
       <==> |MatchingNames(t, node, pattern)| != 1 || forall f | f in failures :: !f.listed
  {
    var rf := Refs(node, isDir, List(pattern, []));
    var last, names := LastRefs(t, path, rf, failures), MatchingNames(t, node, pattern);
    ExecutedIsLastAttempt(t, path, node, isDir, rf.op, now, failures);
    CachedKeepsRefs(t, path, rf, failures);
    LastBegunUndisturbed(t, failures);
    CachedList(t, path, last, now);
    CachedList(t, path, rf, now);
    ListIntoRightIff(last.op.entries, names);
    ListIntoRightIff([], names);
    NothingListedIff(t, path, rf, failures);
    UndisturbedListed(t, path, rf, failures);
  }

  lemma CachedList(t: Tables, path: string, rf: Refs, now: string)
    requires rf.op.List? && rf.node in t.nodes && rf.node != 0
    ensures Perform(t, path, rf.node, rf.isDir, rf.op, now) ==
            Done(t, rf.node, rf.isDir, Names(ListInto(rf.op.entries, MatchingNames(t, rf.node, rf.op.pattern))))
  {
  }

  lemma {:induction false} LastBegunUndisturbed(t: Tables, failures: seq<Failure>)
    requires Undisturbed(t, failures)
    ensures LastBegun(t, failures) == t
    decreases |failures|
  {
    if failures != [] && failures[0].resolvable { LastBegunUndisturbed(t, failures[1..]); }
  }

  lemma {:induction false} UndisturbedListed(t: Tables, path: string, rf: Refs, failures: seq<Failure>)
    requires rf.op.List? && rf.node in t.nodes && rf.node != 0 && Undisturbed(t, failures) && AllResolvable(failures)
    ensures NothingListed(t, path, rf, failures) <==>
            MatchingNames(t, rf.node, rf.op.pattern) == [] || forall f | f in failures :: !f.listed
    decreases |failures|
  {
    if failures != [] {
      assert failures == [failures[0]] + failures[1..];
      UndisturbedListed(t, path, AfterFailure(t, path, rf, failures[0]), failures[1..]);
    }
  }

  /** How many failed attempts had listed something. */
  function Listings(failures: seq<Failure>): nat {
    if failures == [] then 0 else (if failures[0].listed then 1 else 0) + Listings(failures[1..])
  }

  function Repeated(name: string, n: nat): (r: seq<string>)
    ensures |r| == n && forall x | x in r :: x == name
  {
    seq(n, _ => name)
  }

  /** Undisturbed and through a cached node, a single match is reported once by every failed attempt that reached
      it and once by the last one. */
  lemma SingleMatchCount(t: Tables, path: string, node: nat, isDir: bool, pattern: string -> bool, now: string,
                         failures: seq<Failure>, name: string)
    requires node in t.nodes && node != 0 && Undisturbed(t, failures) && AllResolvable(failures)
    requires MatchingNames(t, node, pattern) == [name]
    ensures Executed(t, path, node, isDir, List(pattern, []), now, failures) ==
            Done(t, node, isDir, Names(Repeated(name, Listings(failures) + 1)))
  {
    var op := List(pattern, []);
    var rf := Refs(node, isDir, op);
    ExecutedIsLastAttempt(t, path, node, isDir, op, now, failures);
    CachedKeepsRefs(t, path, rf, failures);
    LastBegunUndisturbed(t, failures);
    SingleMatchLeft(t, path, rf, failures, name);
    assert [] + Repeated(name, Listings(failures)) == Repeated(name, Listings(failures));
    assert Repeated(name, Listings(failures)) + [name] == Repeated(name, Listings(failures) + 1);
  }

  lemma OneMoreRepeat(entries: seq<string>, name: string, n: nat, m: nat)
    requires m == n + 1
    ensures entries + [name] + Repeated(name, n) == entries + Repeated(name, m)
  {
    assert [name] + Repeated(name, n) == Repeated(name, m);
  }

  lemma AfterListing(t: Tables, path: string, rf: Refs, f: Failure, name: string)
    requires rf.op.List? && rf.node in t.nodes && rf.node != 0 && MatchingNames(t, rf.node, rf.op.pattern) == [name]
    ensures AfterFailure(t, path, rf, f) ==
            if f.listed then rf.(op := rf.op.(entries := rf.op.entries + [name])) else rf
  {
  }

  /** What the failed attempts leave in the vector. */
  lemma {:induction false} SingleMatchLeft(t: Tables, path: string, rf: Refs, failures: seq<Failure>, name: string)
    requires rf.op.List? && rf.node in t.nodes && rf.node != 0 && Undisturbed(t, failures) && AllResolvable(failures)
    requires MatchingNames(t, rf.node, rf.op.pattern) == [name]
    ensures LastRefs(t, path, rf, failures).op.List?
    ensures LastRefs(t, path, rf, failures).op.entries == rf.op.entries + Repeated(name, Listings(failures))
    decreases |failures|
  {
    if failures != [] {
      assert failures == [failures[0]] + failures[1..];
      var rf' := AfterFailure(t, path, rf, failures[0]);
      AfterListing(t, path, rf, failures[0], name);
      SingleMatchLeft(t, path, rf', failures[1..], name);
      if failures[0].listed { OneMoreRepeat(rf.op.entries, name, Listings(failures[1..]), Listings(failures)); }
    }
  }

  /** A list that fails after several matches, and finds one when it starts over, reports what the first query had
      left in the vector and then the one. */
  lemma LeftoversAreReported(t: Tables, path: string, node: nat, isDir: bool, pattern: string -> bool, now: string,
                             f: Failure, name: string)
    requires node in t.nodes && node in f.next.nodes && node != 0 && f.resolvable && f.listed
    requires |MatchingNames(t, node, pattern)| > 1 && |f.left| == |MatchingNames(t, node, pattern)|
    requires MatchingNames(f.next, node, pattern) == [name]
    ensures Executed(t, path, node, isDir, List(pattern, []), now, [f]) ==
            Done(f.next, node, isDir, Names(f.left + [name]))
  {
    assert [f][1..] == [];
  }

  /** The root has one entry, a; list is called, fails once after the append, and reports it twice. */
  lemma SingleMatchTwice(pattern: string -> bool, f: Failure)
    requires pattern("a") && f.resolvable && f.listed
    requires f.next == InsertNode(Initial("t0"), "a", ROOT, false, "t1")
    ensures var t := f.next;
            && MatchingNames(t, ROOT, pattern) == ["a"]
            && Executed(t, "/", ROOT, false, List(pattern, []), "t2", [f]) == Done(t, ROOT, false, Names(["a", "a"]))
  {
    var t := f.next;
    assert ChildrenFrom(t.nodes, ROOT, 2, 3) == [2];
    assert Children(t, ROOT) == [2];
    var kids := [2];
    assert kids[..0] == [] && t.nodes[2].name == "a";
    assert Select(t, kids[..0], pattern) == [];
    assert Matching(t, ROOT, pattern) == Select(t, kids, pattern) == [] + [2];
    assert MatchingNames(t, ROOT, pattern) == ["a"];
    assert [] + ["a"] == ["a"] && ["a"] + ["a"] == ["a", "a"];
    assert [f][1..] == [];
  }

  /** /a is replaced between two attempts to remove it: the second one is refused, although /a is there. */
  lemma StaleNumberRefused(f: Failure)
    requires f.resolvable && f.bound
    requires var t := InsertNode(Initial("t0"), "a", ROOT, false, "t1");
             f.next == InsertNode(DeleteNode(t, 2, "t2"), "a", ROOT, false, "t3")
    ensures var t, u := InsertNode(Initial("t0"), "a", ROOT, false, "t1"), f.next;
            && Interference(t, [f])
            && Executed(t, "/a", 0, false, Remove, "t4", [f]) == Threw(u, BAD_PARAMETER, 2)
            && Perform(u, "/a", 0, false, Remove, "t4").Done? && Perform(u, "/a", 0, false, Remove, "t4").node == 3
  {
    var t0 := Initial("t0");
    var t := InsertNode(t0, "a", ROOT, false, "t1");
    var t1 := DeleteNode(t, 2, "t2");
    InitialIsTree("t0");
    assert Lookup(t0, "a", ROOT) == 0;
    InsertKeepsBase(t0, "a", ROOT, false, "t1");
    DeleteKeepsBase(t, 2, "t2");
    assert Lookup(t1, "a", ROOT) == 0;
    InsertKeepsBase(t1, "a", ROOT, false, "t3");
    PathOfA();
    LookupIs(t, "a", ROOT, 2);
    LookupIs(f.next, "a", ROOT, 3);
    assert WalkFrom(t, 2, false, ["a"][1..], Look, "") == Reached(t, 2, false);
    assert WalkFrom(f.next, 3, false, ["a"][1..], Look, "") == Reached(f.next, 3, false);
    assert FoundAt(t, 2) && FoundAt(f.next, 3);
    assert [f][1..] == [];
    assert Bind(t, "/a", 0, false, Remove, "t4") == Bound(2, false);
    assert LastBegun(t, [f]) == f.next;
  }

  predicate FoundAt(t: Tables, n: nat) {
    Find(t, "/a", false, Look, "") == Reached(t, n, false)
  }

  lemma PathOfA()
    ensures Tokens("/a", '/') == ["a"] && ["a"][1..] == []
  {
    TokensOfPathText(["a"]);
    assert PathText(["a"]) == "/a";
  }

  // ------------------------------------------------------------------ what retried calls keep

  /** What others commit between the attempts keeps to the base invariant. */
  predicate Interference(t: Tables, failures: seq<Failure>)
    decreases |failures|
  {
    failures != [] ==>
      Base(failures[0].next) && Evolves(t, failures[0].next) && Interference(failures[0].next, failures[1..])
  }

  lemma {:induction false} LastBegunEvolves(t: Tables, failures: seq<Failure>)
    requires Base(t) && Interference(t, failures)
    ensures Base(LastBegun(t, failures)) && Evolves(t, LastBegun(t, failures))
    decreases |failures|
  {
    if failures != [] && failures[0].resolvable { LastBegunEvolves(failures[0].next, failures[1..]); }
  }

  lemma {:induction false} LastNumberBelowNext(t: Tables, path: string, rf: Refs, failures: seq<Failure>)
    requires Base(t) && Interference(t, failures) && !Creates(rf.op) && rf.node < t.next
    ensures LastRefs(t, path, rf, failures).node < LastBegun(t, failures).next &&
            !Creates(LastRefs(t, path, rf, failures).op)
    decreases |failures|
  {
    if failures != [] {
      if Bind(t, path, rf.node, rf.isDir, rf.op, "").Bound? { BindBelowNext(t, path, rf.node, rf.isDir, rf.op, ""); }
      if failures[0].resolvable {
        LastNumberBelowNext(failures[0].next, path, AfterFailure(t, path, rf, failures[0]), failures[1..]);
      }
    }
  }

  lemma LastRefsFit(t: Tables, path: string, rf: Refs, failures: seq<Failure>)
    requires Base(t) && Interference(t, failures) && (Creates(rf.op) || rf.node < t.next)
    ensures var rf', u := LastRefs(t, path, rf, failures), LastBegun(t, failures);
            Base(u) && Evolves(t, u) && (Creates(rf'.op) || rf'.node < u.next)
  {
    LastBegunEvolves(t, failures);
    if Creates(rf.op) { CreateKeepsRefs(t, path, rf, failures); } else { LastNumberBelowNext(t, path, rf, failures); }
  }

  lemma ExecutedKeepsBase(t: Tables, path: string, node: nat, isDir: bool, op: Op, now: string, failures: seq<Failure>)
    requires Base(t) && Interference(t, failures) && (Creates(op) || node < t.next)
    ensures var r := Executed(t, path, node, isDir, op, now, failures);
            Base(r.t) && Evolves(t, r.t) && (r.Done? ==> 1 <= r.node < r.t.next)
  {
    var u, rf := LastBegun(t, failures), LastRefs(t, path, Refs(node, isDir, op), failures);
    ExecutedIsLastAttempt(t, path, node, isDir, op, now, failures);
    LastRefsFit(t, path, Refs(node, isDir, op), failures);
    AttemptKeepsBase(u, path, rf, now);
    EvolvesOn(t, u, Executed(t, path, node, isDir, op, now, failures).t);
  }

  lemma AttemptKeepsBase(u: Tables, path: string, rf: Refs, now: string)
    requires Base(u) && (Creates(rf.op) || rf.node < u.next)
    ensures var r := Perform(u, path, rf.node, rf.isDir, rf.op, now);
            Base(r.t) && Evolves(u, r.t) && (r.Done? ==> 1 <= r.node < r.t.next)
  {
    if Perform(u, path, rf.node, rf.isDir, rf.op, now).Done? {
      PerformKeepsBase(u, path, rf.node, rf.isDir, rf.op, now);
    } else {
      ThrewRollsBack(u, path, rf.node, rf.isDir, rf.op, now);
    }
  }

  lemma EvolvesOn(a: Tables, b: Tables, c: Tables)
    requires Evolves(a, b) && Evolves(b, c)
    ensures Evolves(a, c)
  {
  }

  /** A logical error leaves the tables as at the begin. */
  lemma ThrewRollsBack(t: Tables, path: string, node: nat, isDir: bool, op: Op, now: string)
    requires Perform(t, path, node, isDir, op, now).Threw?
    ensures Perform(t, path, node, isDir, op, now).t == t
  {
  }
}
