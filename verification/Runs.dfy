/** Any number of open advert objects sharing one database: every interleaving of their transactions.

    A handle is the part of an advert object that lasts: the `database` member with its cached
    node number and kind. Entry objects are advert_cpi_impl, directory objects advertdirectory_cpi_impl. */
module Runs {
  import opened Errors
  import opened Growth
  import opened Locations
  import opened Operations
  import opened Removal
  import opened Retry
  import opened Schema
  import opened Text
  import opened Walk

  datatype Kind = Unknown | Entry | Directory

  datatype Handle = Handle(isEntry: bool, node: nat, kind: Kind)

  /** An open object: its handle, and the path it was opened with or has moved to. */
  datatype Object = Object(hd: Handle, location: string)

  /** A call with a node reference of its own, between two attempts. */
  datatype Call = Call(path: string, op: Op, node: nat)

  datatype System = System(t: Tables, objects: map<nat, Object>, calls: map<nat, Call>)

  /** One event is one transaction, or one look-up outside of any. Open: the constructors; an exclusive one
      looks first, but that binds nobody, so it is not an event. Act: a call through the cached node; an
      attempt of it that fails leaves everything as it was, so only the last one is an event. Begin, Fail,
      Finish: the *_other calls and create_new_directory, whose node reference starts at 0 and outlives a
      failed attempt. ForcedFind: database::find with force, as the recursive listings use it. */
  datatype Event =
    | Open(h: nat, isEntry: bool, url: string, create: bool, parents: bool, now: string)
    | Act(h: nat, op: Op, now: string)
    | Begin(c: nat, path: string, op: Op)
    | Fail(c: nat, failure: Failure)
    | Finish(c: nat, now: string)
    | ForcedFind(h: nat, path: string)
    | ChangeDir(h: nat, path: string)
    | Close(h: nat)

  datatype Opening = Opened(t: Tables, node: nat) | NotOpened(t: Tables, error: ErrorCode)

  function PathOfUrl(url: string): (path: string)
    ensures path != "" && Tokens(path, '/') == Tokens(url, '/')
    ensures path[0] == '/' <==> url == "" || url[0] == '/'
  {
    if url == "" then assert "/"[1..] == ""; "/" else url
  }

  /** A path given to a directory object, made absolute. */
  function FullPath(location: string, path: string): string {
    if path != "" && path[0] == '/' then path else location + "/" + path
  }

  /** It leads where a path given there is to lead. */
  lemma FullPathLeads(t: Tables, location: string, path: string)
    ensures Target(t, FullPath(location, path)) == TargetFrom(t, location, path)
    ensures Absolute(location) ==> FullPath(location, path) != "" && FullPath(location, path)[0] == '/'
  {
    if path == "" || path[0] != '/' {
      TokensAtSeparator(location, path, '/');
      assert location + ['/'] + path == location + "/" + path;
      ResolveConcat(t, ROOT, Tokens(location, '/'), Tokens(path, '/'));
    }
  }

  function FindKind(t: Tables, path: string, isEntry: bool): Result<nat> {
    if isEntry then FindEntry(t, path, true) else FindDirectory(t, path, true)
  }

  function CreateOp(isEntry: bool, parents: bool): Op {
    if isEntry then CreateEntry(parents) else CreateDirectory(parents)
  }

  function KindOf(isEntry: bool): Kind {
    if isEntry then Entry else Directory
  }

  /** The transaction, or look-up, that gives a new object its node. */
  function OpenStep(t: Tables, isEntry: bool, url: string, create: bool, parents: bool, now: string): Opening {
    var path := PathOfUrl(url);
    if path[0] != '/' then NotOpened(t, INCORRECT_URL)
    else if create || parents then
      match Perform(t, path, 0, false, CreateOp(isEntry, parents), now)
      case Threw(u, e, _) => NotOpened(u, e)
      case Done(u, n, _, _) => Opened(u, n)
    else
      match FindKind(t, path, isEntry)
      case Err(e) => NotOpened(t, e)
      case Ok(n) => if n == 0 then NotOpened(t, DOES_NOT_EXIST) else Opened(t, n)
  }

  /** The database part of both constructors, with the probe of an exclusive one and all attempts. */
  function OpenAt(t: Tables, isEntry: bool, url: string, create: bool, parents: bool, exclusive: bool, now: string,
                  failures: seq<Failure>): Opening {
    var path := PathOfUrl(url);
    var probe := if (create || parents) && exclusive then FindKind(t, path, isEntry) else Ok(0);
    if path[0] != '/' then NotOpened(t, INCORRECT_URL)
    else if probe.Err? then NotOpened(t, probe.error)
    else if probe.value != 0 then NotOpened(t, ALREADY_EXISTS)
    else if create || parents then
      match Executed(t, path, 0, false, CreateOp(isEntry, parents), now, failures)
      case Threw(u, e, _) => NotOpened(u, e)
      case Done(u, n, _, _) => Opened(u, n)
    else OpenStep(t, isEntry, url, create, parents, now)
  }

  /** The operations each class of object issues through its cached node. */
  predicate Allowed(isEntry: bool, op: Op) {
    if op.Remove? || op.Store? || op.Retrieve? then isEntry
    else if op.RemoveDirectory? || op.List? then !isEntry
    else !Creates(op)
  }

  /** The handle after a call; removing closes it. List works on a copy of the node number. */
  function AfterAct(hd: Handle, op: Op, r: Outcome): Handle {
    match r
    case Threw(_, _, n) => if op.List? then hd else hd.(node := n)
    case Done(_, n, isDir, _) =>
      if Creates(op) then hd.(node := n, kind := KindOf(op.CreateEntry?))
      else if op.Remove? || op.RemoveDirectory? then hd.(node := 0, kind := Unknown)
      else if op.Store? || op.Retrieve? then hd.(node := n, kind := Entry)
      else if op.List? then hd.(node := if hd.node == 0 then n else hd.node, kind := Directory)
      else hd.(node := n, kind := if hd.kind.Unknown? then KindOf(!isDir) else hd.kind)
  }

  function AfterForcedFind(hd: Handle, w: Walked): Handle {
    match w
    case Thrown(_) => hd
    case Reached(_, n, isDir) => if n == 0 then hd else hd.(kind := KindOf(!isDir))
  }

  function AfterChangeDir(hd: Handle, found: Result<nat>): Handle {
    match found
    case Err(_) => hd
    case Ok(n) => if n == 0 then hd else hd.(node := n, kind := Directory)
  }

  predicate Closes(op: Op, r: Outcome) {
    r.Done? && (op.Remove? || op.RemoveDirectory?)
  }

  /** BOOST_ASSERT in database::list. */
  predicate AssertHolds(hd: Handle, op: Op) {
    op.List? ==> !hd.kind.Entry?
  }

  predicate Enabled(s: System, e: Event) {
    match e
    case Open(_, _, _, _, _, _) => true
    case Act(h, op, _) => h in s.objects && Allowed(s.objects[h].hd.isEntry, op)
    case Begin(_, _, op) => Checked(op) || Creates(op)
    case Fail(c, f) => c in s.calls && f.resolvable
    case Finish(c, _) => c in s.calls
    case ForcedFind(h, _) => h in s.objects && !s.objects[h].hd.isEntry
    case ChangeDir(h, _) => h in s.objects && !s.objects[h].hd.isEntry
    case Close(h) => h in s.objects
  }

  /** What a call through the cached node does. */
  function ActOutcome(t: Tables, ob: Object, op: Op, now: string): Outcome {
    Perform(t, PathOfUrl(ob.location), ob.hd.node, false, op, now)
  }

  function FinishOutcome(t: Tables, c: Call, now: string): Outcome {
    Perform(t, c.path, c.node, false, c.op, now)
  }

  function AfterFail(t: Tables, c: Call, f: Failure): Call {
    var rf := AfterFailure(t, c.path, Refs(c.node, false, c.op), f);
    Call(c.path, rf.op, rf.node)
  }

  function Next(s: System, e: Event): System {
    if !Enabled(s, e) then s
    else
      match e
      case Open(h, isEntry, url, create, parents, now) =>
        (match OpenStep(s.t, isEntry, url, create, parents, now)
         case NotOpened(_, _) => s
         case Opened(t', n) => System(t', s.objects[h := Object(Handle(isEntry, n, KindOf(isEntry)), url)], s.calls))
      case Act(h, op, now) =>
        var ob := s.objects[h];
        var r := ActOutcome(s.t, ob, op, now);
        var after := ob.(hd := AfterAct(ob.hd, op, r));
        System(r.t, if Closes(op, r) then s.objects - {h} else s.objects[h := after], s.calls)
      case Begin(c, path, op) => s.(calls := s.calls[c := Call(path, op, 0)])
      case Fail(c, f) => s.(calls := s.calls[c := AfterFail(s.t, s.calls[c], f)])
      case Finish(c, now) => s.(t := FinishOutcome(s.t, s.calls[c], now).t, calls := s.calls - {c})
      case ForcedFind(h, path) =>
        var ob := s.objects[h];
        s.(objects := s.objects[h := ob.(hd := AfterForcedFind(ob.hd, Find(s.t, path, false, Look, "")))])
      case ChangeDir(h, path) =>
        var ob := s.objects[h];
        var full := FullPath(ob.location, path);
        var found := FindDirectory(s.t, full, true);
        if found.Err? then s
        else s.(objects := s.objects[h := Object(AfterChangeDir(ob.hd, found), full)])
      case Close(h) => s.(objects := s.objects - {h})
  }

  function Run(s: System, es: seq<Event>): System
    decreases |es|
  {
    if es == [] then s else Run(Next(s, es[0]), es[1..])
  }

  // ---------------------------------------------------------- constructors with all their attempts

  /** An object that its constructor opens is one that a single event opens, on the tables its last attempt
      begins on. */
  lemma OpenAtIsOpenStep(t: Tables, isEntry: bool, url: string, create: bool, parents: bool, exclusive: bool,
                         now: string, failures: seq<Failure>)
    requires OpenAt(t, isEntry, url, create, parents, exclusive, now, failures).Opened?
    ensures OpenAt(t, isEntry, url, create, parents, exclusive, now, failures) ==
            OpenStep(if create || parents then LastBegun(t, failures) else t, isEntry, url, create, parents, now)
  {
    if create || parents {
      var op := CreateOp(isEntry, parents);
      ExecutedIsLastAttempt(t, PathOfUrl(url), 0, false, op, now, failures);
      CreateRetries(t, PathOfUrl(url), 0, false, op, now, failures);
    }
  }

  lemma OpenAtKeepsBase(t: Tables, isEntry: bool, url: string, create: bool, parents: bool, exclusive: bool,
                        now: string, failures: seq<Failure>)
    requires Base(t) && Interference(t, failures)
    ensures var o := OpenAt(t, isEntry, url, create, parents, exclusive, now, failures);
            Base(o.t) && Evolves(t, o.t) && (o.Opened? ==> 1 <= o.node < o.t.next)
  {
    ExecutedKeepsBase(t, PathOfUrl(url), 0, false, CreateOp(isEntry, parents), now, failures);
    if FindKind(t, PathOfUrl(url), isEntry).Ok? { FindKindBelowNext(t, PathOfUrl(url), isEntry); }
  }

  /** A call with a reference of its own ends as its last attempt does in a run: with the number that the
      earlier ones left, on the tables as they then are. */
  lemma RetriedCallIsFinish(t: Tables, path: string, op: Op, now: string, failures: seq<Failure>)
    requires (Checked(op) || Creates(op)) && AllResolvable(failures)
    ensures var rf := LastRefs(t, path, Refs(0, false, op), failures);
            Executed(t, path, 0, false, op, now, failures) ==
            FinishOutcome(LastBegun(t, failures), Call(path, rf.op, rf.node), now)
  {
    var rf0 := Refs(0, false, op);
    ExecutedIsLastAttempt(t, path, 0, false, op, now, failures);
    if Creates(op) { CreateKeepsRefs(t, path, rf0, failures); } else { CheckedKeepsOp(t, path, rf0, failures); }
  }

  // --------------------------------------------------- a number bound earlier, while the tables are trees

  predicate TreesAllTheWay(t: Tables, failures: seq<Failure>)
    decreases |failures|
  {
    Tree(t) && (failures != [] ==> TreesAllTheWay(failures[0].next, failures[1..]))
  }

  /** The path of a number found on the way leads, at the last attempt, to that node or nowhere, if it lives. */
  lemma {:induction false} FoundStays(t: Tables, path: string, isDir: bool, op: Op, failures: seq<Failure>, m: nat)
    requires TreesAllTheWay(t, failures) && Interference(t, failures) && Checked(op)
    requires m != 0 && FoundOnTheWay(t, path, isDir, op, failures, m)
    ensures var u := LastBegun(t, failures);
            Tree(u) && (m in u.nodes && Target(u, path).At? ==> Target(u, path) == At(m))
    decreases |failures|
  {
    if failures[0].resolvable && FoundOnTheWay(failures[0].next, path, isDir, op, failures[1..], m) {
      FoundStays(failures[0].next, path, isDir, op, failures[1..], m);
    } else {
      var u := LastBegun(t, failures);
      LastBegunEvolves(t, failures);
      LastIsTree(t, failures);
      BoundIsTarget(t, path, isDir, op);
      if m in u.nodes { LocationNeverMisleads(t, u, path, m); }
    }
  }

  lemma {:induction false} LastIsTree(t: Tables, failures: seq<Failure>)
    requires TreesAllTheWay(t, failures)
    ensures Tree(LastBegun(t, failures))
    decreases |failures|
  {
    if failures != [] && failures[0].resolvable { LastIsTree(failures[0].next, failures[1..]); }
  }

  lemma BoundIsTarget(t: Tables, path: string, isDir: bool, op: Op)
    requires Tree(t) && Checked(op) && Bind(t, path, 0, isDir, op, "").Bound?
    ensures var k := Bind(t, path, 0, isDir, op, "").node;
            if k == 0 then Target(t, path) == Missing else Target(t, path) == At(k) && k in t.nodes
  {
    LookIsResolve(t, ROOT, false, Tokens(path, '/'), "");
    TargetIsLive(t, path);
  }

  /** While the tables are trees no operation on a number bound earlier acts on another node than the path leads
      to. It shows in two ways: the node lives and the path leads nowhere, or the node is gone and the path leads
      somewhere; or in the error, when the path cannot be walked. */
  lemma BoundNumberInTrees(t: Tables, path: string, isDir: bool, op: Op, now: string, failures: seq<Failure>)
    requires Checked(op) && AllResolvable(failures) && TreesAllTheWay(t, failures) && Interference(t, failures)
    requires LastRefs(t, path, Refs(0, isDir, op), failures).node != 0
    ensures var u, rf := LastBegun(t, failures), LastRefs(t, path, Refs(0, isDir, op), failures);
            Checked(rf.op) &&
            (!Alike(Executed(t, path, 0, isDir, op, now, failures), Perform(u, path, 0, isDir, rf.op, now)) <==>
             match Bind(u, path, 0, isDir, rf.op, "")
             case Unbound(e) => !(op.Retrieve? && e == NO_SUCCESS && rf.node in u.nodes && rf.node !in u.data)
             case Bound(k, _) => k == 0 <==> rf.node in u.nodes)
    ensures var u, rf := LastBegun(t, failures), LastRefs(t, path, Refs(0, isDir, op), failures);
            rf.node in u.nodes && Target(u, path).At? ==> Target(u, path) == At(rf.node)
  {
    var rf0 := Refs(0, isDir, op);
    var u, rf := LastBegun(t, failures), LastRefs(t, path, rf0, failures);
    LastIsTree(t, failures);
    CheckedKeepsOp(t, path, rf0, failures);
    BoundNumberShowsIff(t, path, isDir, op, now, failures);
    BoundNumberWasFound(t, path, rf0, op, failures);
    FoundStays(t, path, isDir, op, failures, rf.node);
    if Bind(u, path, 0, isDir, rf.op, "").Bound? { BoundIsTarget(u, path, isDir, rf.op); }
  }

  /** What Exclusive promises: nothing was there when the constructor looked. It opens an old node all the same
      exactly if, when its last attempt begins, the path leads to one once every name/.. is cancelled: because
      another opener came in between, or because the creation climbs back out of what it makes. */
  lemma ExclusiveOpenIff(t: Tables, isEntry: bool, url: string, create: bool, parents: bool, now: string,
                         failures: seq<Failure>)
    requires Base(t) && Base(LastBegun(t, failures)) && (create || parents)
    requires OpenAt(t, isEntry, url, create, parents, true, now, failures).Opened?
    ensures !Target(t, url).At? && (Undisturbed(t, failures) ==> LastBegun(t, failures) == t)
    ensures var o, u := OpenAt(t, isEntry, url, create, parents, true, now, failures), LastBegun(t, failures);
            var p := Resolve(u, ROOT, Normalize(Tokens(url, '/')));
            && (o.node < u.next <==> p.At?) && (p.At? ==> p == At(o.node))
            && (Tree(u) ==> (o.node in u.nodes <==> o.node < u.next))
            && (Target(u, url).At? ==> o == Opened(u, Target(u, url).node))
  {
    var path, u := PathOfUrl(url), LastBegun(t, failures);
    var toks := Tokens(path, '/');
    OpenAtIsOpenStep(t, isEntry, url, create, parents, true, now, failures);
    LookIsResolve(t, ROOT, false, toks, "");
    if Target(t, url).At? { ResolvedIsPositive(t, ROOT, toks); }
    EndIsOldIff(u, path, false, parents, !isEntry, now);
    if Target(u, url).At? {
      FoundIsLook(u, ROOT, false, toks, Make(parents, !isEntry), now);
      LookIsResolve(u, ROOT, false, toks, now);
    }
    if Undisturbed(t, failures) { LastBegunUndisturbed(t, failures); }
  }

  /** Another opener in between: /a is missing when the exclusive constructor looks, and is there as node 2 when
      its second attempt begins. */
  lemma ExclusiveOpensAnothers(f: Failure)
    requires f.resolvable && f.next == InsertNode(Initial("t0"), "a", ROOT, true, "t1")
    ensures Interference(Initial("t0"), [f])
    ensures OpenAt(Initial("t0"), false, "/a", true, false, true, "t2", [f]) == Opened(f.next, 2)
    ensures Tree(f.next) && 2 in f.next.nodes
  {
    var t, u, op := Initial("t0"), f.next, CreateOp(false, false);
    InitialIsTree("t0");
    OpenTop(t, "a", "/a", "t1");
    InsertKeepsTree(t, "a", ROOT, true, "t1");
    assert [f][1..] == [];
    OpenAgain(u, "t2");
    ExecutedIsLastAttempt(t, "/a", 0, false, op, "t2", [f]);
    CreateRetries(t, "/a", 0, false, op, "t2", [f]);
  }

  lemma OpenAgain(u: Tables, now: string)
    requires Base(u) && Lookup(u, "a", ROOT) == 2 && 2 in u.nodes && u.nodes[2].isDir
    ensures Perform(u, "/a", 0, false, CreateOp(false, false), now) == Done(u, 2, false, Nothing)
  {
    PathOfA();
    assert WalkFrom(u, 2, true, ["a"][1..], Make(false, true), now) == Reached(u, 2, true);
  }

  /** Nobody else at work: /a/b/.. leads nowhere while b is missing; the exclusive constructor makes b, climbs
      back and opens /a, which was there. */
  lemma ExclusiveClimbsBack()
    ensures var t := InsertNode(Initial("t0"), "a", ROOT, true, "t1");
            var o := OpenAt(t, false, "/a/b/..", true, true, true, "t2", []);
            && Tree(t) && WalkH(t, "/a/b/..", Make(true, true), "t2")
            && 2 in t.nodes && o.Opened? && o.node == 2
  {
    var t0 := Initial("t0");
    InitialIsTree("t0");
    InsertKeepsTree(t0, "a", ROOT, true, "t1");
    var t := InsertNode(t0, "a", ROOT, true, "t1");
    LookupIs(t, "a", ROOT, 2);
    assert Lookup(t, "b", 2) == 0;
    InsertKeepsTree(t, "b", 2, true, "t2");
    var toks := ["a", "b", ".."];
    ClimbBackTokens();
    assert toks[1..] == ["b", ".."] && toks[1..][1..] == [".."] && toks[1..][1..][1..] == [];
    ClimbBackWalk(t, toks, "t2");
  }

  lemma ClimbBackTokens()
    ensures Tokens("/a/b/..", '/') == ["a", "b", ".."]
  {
    TokensOfThree("a", "b", "..");
    assert "" + "/" + "a" + "/" + "b" + "/" + ".." == "/a/b/..";
  }

  lemma ClimbBackWalk(t: Tables, toks: seq<string>, now: string)
    requires Tree(t) && Lookup(t, "a", ROOT) == 2 && Lookup(t, "b", 2) == 0 && 2 in t.nodes && t.nodes[2].isDir
    requires Tokens("/a/b/..", '/') == toks && |toks| == 3 && toks[0] == "a" && toks[1..][0] == "b" &&
             toks[1..][1..][0] == ".."
    requires toks[1..][1..][1..] == [] && Tree(InsertNode(t, "b", 2, true, now))
    ensures WalkH(t, "/a/b/..", Make(true, true), now)
    ensures FindDirectory(t, "/a/b/..", true) == Ok(0)
    ensures Perform(t, "/a/b/..", 0, false, CreateOp(false, true), now) ==
            Done(InsertNode(t, "b", 2, true, now), 2, false, Nothing)
  {
    var u, m := InsertNode(t, "b", 2, true, now), Make(true, true);
    assert RowOk(2, t.nodes[2], t.next) && t.next in u.nodes;
    assert WalkFrom(u, t.next, true, toks[1..][1..], m, now) == Reached(u, 2, true);
    assert WalkFrom(t, 2, true, toks[1..], m, now) == WalkFrom(u, t.next, true, toks[1..][1..], m, now);
    assert WalkFrom(t, 2, true, toks[1..], Look, "") == Reached(t, 0, false);
    assert NoStepPastLeaf(u, t.next, toks[1..][1..], m, now);
    assert NoStepPastLeaf(t, 2, toks[1..], m, now);
  }

  /** Every call of an open object is an event. An entry object gets, sets and removes attributes, stores,
      retrieves and is removed; a directory object lists and is removed as a directory. */
  lemma CallsAreEvents(s: System, h: nat, op: Op, now: string)
    requires h in s.objects && !op.CreateEntry? && !op.CreateDirectory?
    requires if s.objects[h].hd.isEntry then !op.RemoveDirectory? && !op.List?
             else !op.Remove? && !op.Store? && !op.Retrieve?
    ensures var ob, s' := s.objects[h], Next(s, Act(h, op, now));
            var r := Executed(s.t, PathOfUrl(ob.location), ob.hd.node, false, op, now, []);
            && s'.t == r.t && s'.calls == s.calls
            && if r.Done? && (op.Remove? || op.RemoveDirectory?) then s'.objects == s.objects - {h}
               else s'.objects == s.objects[h := Object(AfterAct(ob.hd, op, r), ob.location)]
  {
  }

  /** So are opening and closing, change_dir, and the forced look-ups of recursive listings. */
  lemma MovesAreEvents(s: System, h: nat, path: string)
    requires h in s.objects
    ensures Next(s, Close(h)) == System(s.t, s.objects - {h}, s.calls)
    ensures var ob, full, found := s.objects[h], FullPath(s.objects[h].location, path),
                                   FindDirectory(s.t, FullPath(s.objects[h].location, path), true);
            !ob.hd.isEntry ==>
              && Next(s, ChangeDir(h, path)) == (if found.Err? then s else
                   System(s.t, s.objects[h := Object(AfterChangeDir(ob.hd, found), full)], s.calls))
              && var hd := AfterForcedFind(ob.hd, Find(s.t, path, false, Look, ""));
                 Next(s, ForcedFind(h, path)) == System(s.t, s.objects[h := Object(hd, ob.location)], s.calls)
  {
  }

  // ------------------------------------------------------- a retried call among the events of others

  /** The events go on while call c is under way: its failed attempts are among them, not its begin or end. */
  predicate UnderWay(es: seq<Event>, c: nat) {
    forall i | 0 <= i < |es| :: !(es[i].Begin? && es[i].c == c) && !(es[i].Finish? && es[i].c == c)
  }

  predicate FailsNow(s: System, e: Event, c: nat) {
    e.Fail? && e.c == c && c in s.calls && e.failure.resolvable
  }

  /** The tables at the next attempt of c: at its first failure in es, or after es. */
  function AtAttempt(s: System, es: seq<Event>, c: nat): Tables
    decreases |es|
  {
    if es == [] || FailsNow(s, es[0], c) then s.t else AtAttempt(Next(s, es[0]), es[1..], c)
  }

  /** The failures of c among the events, each with the tables that the attempt after it finds. */
  function FailuresOf(s: System, es: seq<Event>, c: nat): seq<Failure>
    decreases |es|
  {
    if es == [] then []
    else
      var s', rest := Next(s, es[0]), es[1..];
      var more := FailuresOf(s', rest, c);
      if FailsNow(s, es[0], c) then [es[0].failure.(next := AtAttempt(s', rest, c))] + more else more
  }

  lemma FailStep(s: System, e: Event, c: nat, f: Failure)
    requires c in s.calls && FailsNow(s, e, c) && (Checked(s.calls[c].op) || Creates(s.calls[c].op))
    requires f == e.failure.(next := f.next)
    ensures var s', call := Next(s, e), s.calls[c];
            var rf := AfterFailure(s.t, call.path, Refs(call.node, false, call.op), f);
            && s'.t == s.t && c in s'.calls && s'.calls[c] == Call(call.path, rf.op, rf.node) && !rf.isDir &&
               f.resolvable
            && (Checked(rf.op) || Creates(rf.op))
  {
  }

  lemma OthersStep(s: System, e: Event, c: nat)
    requires c in s.calls && !FailsNow(s, e, c) && !(e.Begin? && e.c == c) && !(e.Finish? && e.c == c)
    ensures c in Next(s, e).calls && Next(s, e).calls[c] == s.calls[c]
  {
  }

  lemma OneMoreFailure(t: Tables, path: string, rf: Refs, f: Failure, more: seq<Failure>)
    requires f.resolvable
    ensures LastRefs(t, path, rf, [f] + more) == LastRefs(f.next, path, AfterFailure(t, path, rf, f), more)
    ensures LastBegun(t, [f] + more) == LastBegun(f.next, more)
    ensures AllResolvable([f] + more) <==> AllResolvable(more)
  {
    assert ([f] + more)[1..] == more;
  }

  /** What a call has become after any events: the references that its failed attempts leave. */
  lemma {:induction false} CallOverRun(s: System, es: seq<Event>, c: nat)
    requires c in s.calls && UnderWay(es, c) && (Checked(s.calls[c].op) || Creates(s.calls[c].op))
    ensures var s', call, failures := Run(s, es), s.calls[c], FailuresOf(s, es, c);
            var rf := LastRefs(AtAttempt(s, es, c), call.path, Refs(call.node, false, call.op), failures);
            && AllResolvable(failures) && LastBegun(AtAttempt(s, es, c), failures) == s'.t
            && c in s'.calls && s'.calls[c] == Call(call.path, rf.op, rf.node)
    decreases |es|
  {
    if es != [] {
      var s', rest := Next(s, es[0]), es[1..];
      var failures := FailuresOf(s, es, c);
      if FailsNow(s, es[0], c) {
        FailStep(s, es[0], c, failures[0]);
        OneMoreFailure(s.t, s.calls[c].path, Refs(s.calls[c].node, false, s.calls[c].op), failures[0],
                       FailuresOf(s', rest, c));
        assert failures == [failures[0]] + FailuresOf(s', rest, c);
      } else {
        OthersStep(s, es[0], c);
      }
      CallOverRun(s', rest, c);
    }
  }

  lemma {:induction false} AttemptEvolves(s: System, es: seq<Event>, c: nat)
    requires SystemOk(s)
    ensures Base(AtAttempt(s, es, c)) && Evolves(s.t, AtAttempt(s, es, c))
    ensures Interference(AtAttempt(s, es, c), FailuresOf(s, es, c))
    decreases |es|
  {
    if es != [] {
      var s', rest := Next(s, es[0]), es[1..];
      NextKeepsBase(s, es[0]);
      AttemptEvolves(s', rest, c);
      var failures := FailuresOf(s, es, c);
      if FailsNow(s, es[0], c) {
        assert failures[1..] == FailuresOf(s', rest, c);
      }
    }
  }

  /** A call that begins, fails as often as it does and finishes, while any other calls and objects go on with
      theirs, ends as `Executed` says for the failures found in the run; and these meet its hypothesis. */
  lemma RetriedCallOverRuns(s: System, c: nat, path: string, op: Op, es: seq<Event>, now: string)
    requires SystemOk(s) && (Checked(op) || Creates(op)) && UnderWay(es, c)
    ensures var s0 := Next(s, Begin(c, path, op));
            var t, failures, s' := AtAttempt(s0, es, c), FailuresOf(s0, es, c), Run(s0, es);
            && Base(t) && Interference(t, failures) && AllResolvable(failures) && LastBegun(t, failures) == s'.t
            && c in s'.calls && Next(s', Finish(c, now)).calls == s'.calls - {c}
            && FinishOutcome(s'.t, s'.calls[c], now) == Executed(t, path, 0, false, op, now, failures)
            && Next(s', Finish(c, now)).t == Executed(t, path, 0, false, op, now, failures).t
  {
    var s0 := Next(s, Begin(c, path, op));
    NextKeepsBase(s, Begin(c, path, op));
    AttemptEvolves(s0, es, c);
    CallOverRun(s0, es, c);
    RetriedCallIsFinish(AtAttempt(s0, es, c), path, op, now, FailuresOf(s0, es, c));
  }

  // ------------------------------------------------------------------ runs without hypotheses

  predicate CallOk(t: Tables, c: Call) {
    (Checked(c.op) || Creates(c.op)) && (Checked(c.op) ==> c.node < t.next)
  }

  predicate SystemOk(s: System) {
    && Base(s.t)
    && (forall h | h in s.objects :: 1 <= s.objects[h].hd.node < s.t.next)
    && (forall c | c in s.calls :: CallOk(s.t, s.calls[c]))
  }

  lemma FindKindBelowNext(t: Tables, path: string, isEntry: bool)
    requires Base(t) && FindKind(t, path, isEntry).Ok?
    ensures FindKind(t, path, isEntry).value < t.next
  {
    BoundBelowNext(t, path, false, Look, "");
  }

  lemma OpenKeepsBase(t: Tables, isEntry: bool, url: string, create: bool, parents: bool, now: string)
    requires Base(t) && OpenStep(t, isEntry, url, create, parents, now).Opened?
    ensures var o := OpenStep(t, isEntry, url, create, parents, now);
            Base(o.t) && Evolves(t, o.t) && 1 <= o.node < o.t.next
  {
    if create || parents {
      PerformKeepsBase(t, PathOfUrl(url), 0, false, CreateOp(isEntry, parents), now);
    } else {
      FindKindBelowNext(t, PathOfUrl(url), isEntry);
    }
  }

  /** A call through a cached node never touches the cached number, unless it closes the handle. */
  lemma CachedNodeStays(t: Tables, ob: Object, op: Op, now: string)
    requires ob.hd.node != 0 && Allowed(ob.hd.isEntry, op)
    ensures var r := ActOutcome(t, ob, op, now);
            && r == OnNode(t, ob.hd.node, false, op, now) && r.node == ob.hd.node
            && (!Closes(op, r) ==> AfterAct(ob.hd, op, r).node == ob.hd.node)
  {
  }

  lemma AfterFailOk(t: Tables, c: Call, f: Failure)
    requires Base(t) && CallOk(t, c)
    ensures var c' := AfterFail(t, c, f);
            && CallOk(t, c') && c'.path == c.path
            && (Creates(c.op) ==> c'.op == c.op)
            && (Checked(c.op) ==> Checked(c'.op) && (c.node != 0 ==> c'.node == c.node))
            && (c.op.RemoveDirectory? <==> c'.op.RemoveDirectory?) && (c.op.List? <==> c'.op.List?)
  {
    if Checked(c.op) && Bind(t, c.path, c.node, false, c.op, "").Bound? {
      BindBelowNext(t, c.path, c.node, false, c.op, "");
    }
  }

  lemma NextEvolves(s: System, e: Event)
    requires SystemOk(s)
    ensures Base(Next(s, e).t) && Evolves(s.t, Next(s, e).t)
  {
    if Enabled(s, e) {
      if e.Open? {
        if OpenStep(s.t, e.isEntry, e.url, e.create, e.parents, e.now).Opened? {
          OpenKeepsBase(s.t, e.isEntry, e.url, e.create, e.parents, e.now);
        }
      } else if e.Act? {
        var ob := s.objects[e.h];
        if ActOutcome(s.t, ob, e.op, e.now).Done? {
          PerformKeepsBase(s.t, PathOfUrl(ob.location), ob.hd.node, false, e.op, e.now);
        }
      } else if e.Finish? {
        var c := s.calls[e.c];
        assert CallOk(s.t, c);
        if FinishOutcome(s.t, c, e.now).Done? { PerformKeepsBase(s.t, c.path, c.node, false, c.op, e.now); }
      }
    }
  }

  lemma NextKeepsBase(s: System, e: Event)
    requires SystemOk(s)
    ensures SystemOk(Next(s, e)) && Evolves(s.t, Next(s, e).t)
  {
    NextEvolves(s, e);
    var s' := Next(s, e);
    forall h | h in s'.objects ensures 1 <= s'.objects[h].hd.node < s'.t.next { ObjectStaysOk(s, e, h); }
    forall c | c in s'.calls ensures CallOk(s'.t, s'.calls[c]) {
      if c in s.calls {
        assert CallOk(s.t, s.calls[c]);
        if e.Fail? && e.c == c { AfterFailOk(s.t, s.calls[c], e.failure); }
      }
    }
  }

  lemma ObjectStaysOk(s: System, e: Event, h: nat)
    requires SystemOk(s) && h in Next(s, e).objects && Evolves(s.t, Next(s, e).t)
    ensures 1 <= Next(s, e).objects[h].hd.node < Next(s, e).t.next
  {
    if Enabled(s, e) && !e.Begin? && !e.Fail? && !e.Finish? && e.h == h {
      if e.Open? {
        if OpenStep(s.t, e.isEntry, e.url, e.create, e.parents, e.now).Opened? {
          OpenKeepsBase(s.t, e.isEntry, e.url, e.create, e.parents, e.now);
        }
      } else if e.Act? {
        CachedNodeStays(s.t, s.objects[h], e.op, e.now);
      } else if e.ChangeDir? {
        var full := FullPath(s.objects[h].location, e.path);
        if FindDirectory(s.t, full, true).Ok? { FindKindBelowNext(s.t, full, false); }
      }
    }
  }

  /** Every run, whatever is called in whatever order: ids are never reused, rows never change, names
      stay unique below a parent, and a node has at most one metadata row per key. */
  lemma {:induction false} RunKeepsBase(s: System, es: seq<Event>)
    requires SystemOk(s)
    ensures SystemOk(Run(s, es)) && Evolves(s.t, Run(s, es).t)
    decreases |es|
  {
    if es != [] {
      NextKeepsBase(s, es[0]);
      RunKeepsBase(Next(s, es[0]), es[1..]);
    }
  }

  /** Stale handles never alias. Let a node be resolved in one state and used by its cached number
      after any run. If it is still there, it is the same row, the call acts on it whatever its path
      says, and no other live node has its name and parent. If it is gone, the call throws. */
  lemma StaleHandlesNeverAlias(s: System, es: seq<Event>, n: nat, path: string, op: Op, now: string)
    requires SystemOk(s) && n in s.t.nodes && Checked(op)
    ensures Perform(Run(s, es).t, path, n, false, op, now) ==
            if n in Run(s, es).t.nodes then OnNode(Run(s, es).t, n, false, op, now)
            else Threw(Run(s, es).t, BAD_PARAMETER, n)
    ensures n in Run(s, es).t.nodes ==> Run(s, es).t.nodes[n] == s.t.nodes[n] && AloneInPlace(Run(s, es).t, n)
  {
    RunKeepsBase(s, es);
    assert RowOk(n, s.t.nodes[n], s.t.next);
  }

  predicate AloneInPlace(t: Tables, n: nat)
    requires n in t.nodes
  {
    forall m | m in t.nodes && m != n :: t.nodes[m].parent != t.nodes[n].parent || t.nodes[m].name != t.nodes[n].name
  }

  /** A removed node never comes back. If it was the root, no later run makes the tables a tree again. */
  lemma RemovedNeverReturns(s: System, es: seq<Event>, n: nat)
    requires SystemOk(s) && n < s.t.next && n !in s.t.nodes
    ensures n !in Run(s, es).t.nodes && (n == ROOT ==> !Tree(Run(s, es).t))
  {
    RunKeepsBase(s, es);
  }

  /** remove_directory does not protect the root. */
  lemma RootCanGo(now: string)
    ensures var r := Perform(Initial(now), "/", 0, false, RemoveDirectory, now);
            r.Done? && ROOT !in r.t.nodes && !Tree(r.t)
  {
    assert "/"[1..] == "";
    assert Tokens("/", '/') == [];
  }

  // --------------------------------------------------------------------- runs that keep the tree

  predicate CarefulStep(s: System, e: Event) {
    Enabled(s, e) ==>
      match e
      case Open(_, isEntry, url, create, parents, now) =>
        (create || parents) && OpenStep(s.t, isEntry, url, create, parents, now).Opened?
        ==> Careful(s.t, PathOfUrl(url), 0, false, CreateOp(isEntry, parents), now)
      case Act(h, op, now) =>
        ActOutcome(s.t, s.objects[h], op, now).Done?
        ==> Careful(s.t, PathOfUrl(s.objects[h].location), s.objects[h].hd.node, false, op, now)
      case Finish(c, now) =>
        FinishOutcome(s.t, s.calls[c], now).Done?
        ==> Careful(s.t, s.calls[c].path, s.calls[c].node, false, s.calls[c].op, now)
      case _ => true
  }

  lemma FinishKeepsTreeIff(s: System, e: Event)
    requires SystemOk(s) && Tree(s.t) && e.Finish? && Enabled(s, e)
    ensures Tree(Next(s, e).t) <==> CarefulStep(s, e)
  {
    var c := s.calls[e.c];
    assert CallOk(s.t, c);
    if FinishOutcome(s.t, c, e.now).Done? { PerformKeepsTreeIff(s.t, c.path, c.node, false, c.op, e.now); }
  }

  lemma ActKeepsTreeIff(s: System, e: Event)
    requires SystemOk(s) && Tree(s.t) && e.Act? && Enabled(s, e)
    ensures Tree(Next(s, e).t) <==> CarefulStep(s, e)
  {
    var ob := s.objects[e.h];
    if ActOutcome(s.t, ob, e.op, e.now).Done? {
      PerformKeepsTreeIff(s.t, PathOfUrl(ob.location), ob.hd.node, false, e.op, e.now);
    }
  }

  lemma NextKeepsTreeIff(s: System, e: Event)
    requires SystemOk(s) && Tree(s.t)
    ensures Tree(Next(s, e).t) <==> CarefulStep(s, e)
  {
    if Enabled(s, e) {
      if e.Open? {
        if (e.create || e.parents) && OpenStep(s.t, e.isEntry, e.url, e.create, e.parents, e.now).Opened? {
          PerformKeepsTreeIff(s.t, PathOfUrl(e.url), 0, false, CreateOp(e.isEntry, e.parents), e.now);
        }
      } else if e.Act? {
        ActKeepsTreeIff(s, e);
      } else if e.Finish? {
        FinishKeepsTreeIff(s, e);
      }
    }
  }

  predicate TreeAllAlong(s: System, es: seq<Event>)
    decreases |es|
  {
    Tree(s.t) && (es != [] ==> TreeAllAlong(Next(s, es[0]), es[1..]))
  }

  predicate CarefulAllAlong(s: System, es: seq<Event>)
    decreases |es|
  {
    es != [] ==> CarefulStep(s, es[0]) && CarefulAllAlong(Next(s, es[0]), es[1..])
  }

  /** The tables are a tree in every state of a run exactly when every step of the run is careful. */
  lemma {:induction false} RunKeepsTreeIff(s: System, es: seq<Event>)
    requires SystemOk(s) && Tree(s.t)
    ensures TreeAllAlong(s, es) <==> CarefulAllAlong(s, es)
    decreases |es|
  {
    if es != [] {
      NextKeepsBase(s, es[0]);
      NextKeepsTreeIff(s, es[0]);
      if Tree(Next(s, es[0]).t) { RunKeepsTreeIff(Next(s, es[0]), es[1..]); }
    }
  }

  // ------------------------------------------------- runs under H (no step past a leaf) and R (root kept)

  /** H for the walk of a creating or of a plain find. */
  predicate WalkH(t: Tables, path: string, mode: Mode, now: string) {
    NoStepPastLeaf(t, ROOT, Tokens(path, '/'), mode, now)
  }

  /** H and R for an attempt of a call with its own reference. */
  predicate CallHAndR(t: Tables, c: Call, now: string) {
    if c.op.CreateEntry? then WalkH(t, c.path, Make(c.op.parents, false), now)
    else if c.op.CreateDirectory? then WalkH(t, c.path, Make(c.op.parents, true), now)
    else
      || c.node != 0
      || (WalkH(t, c.path, Look, "") && (c.op.RemoveDirectory? ==> FindDirectory(t, c.path, true) != Ok(ROOT)))
  }

  predicate HAndR(s: System, e: Event) {
    match e
    case Open(_, isEntry, url, create, parents, now) =>
      if create || parents then WalkH(s.t, PathOfUrl(url), Make(parents, !isEntry), now)
      else WalkH(s.t, PathOfUrl(url), Look, "")
    case Act(h, op, _) => h in s.objects && op.RemoveDirectory? ==> s.objects[h].hd.node != ROOT
    case Begin(_, _, _) => true
    case Fail(c, _) => c in s.calls && Checked(s.calls[c].op) ==> CallHAndR(s.t, s.calls[c], "")
    case Finish(c, now) => c in s.calls ==> CallHAndR(s.t, s.calls[c], now)
    case ForcedFind(_, path) => WalkH(s.t, path, Look, "")
    case ChangeDir(h, path) => h in s.objects ==> WalkH(s.t, FullPath(s.objects[h].location, path), Look, "")
    case Close(_) => true
  }

  /** The cached node, while it lives, is of the object's class. */
  predicate NodeRight(t: Tables, hd: Handle) {
    hd.node in t.nodes ==> t.nodes[hd.node].isDir == !hd.isEntry
  }

  predicate KindRight(hd: Handle) {
    hd.kind == KindOf(hd.isEntry)
  }

  /** The number a call has bound is, while it lives, of the kind the call is for. */
  predicate CallRight(t: Tables, c: Call) {
    Checked(c.op) && c.node != 0 ==>
      && (c.node in t.nodes ==> t.nodes[c.node].isDir == (c.op.RemoveDirectory? || c.op.List?))
      && (c.op.RemoveDirectory? ==> c.node != ROOT)
  }

  /** What runs under H and R keep. `quiet` says there was no recursive listing so far. */
  predicate Truthful(s: System, quiet: bool) {
    && SystemOk(s) && Tree(s.t)
    && (forall h | h in s.objects ::
          NodeRight(s.t, s.objects[h].hd) && (quiet || s.objects[h].hd.isEntry ==> KindRight(s.objects[h].hd)))
    && (forall c | c in s.calls :: CallRight(s.t, s.calls[c]))
  }

  lemma FindKindIsRight(t: Tables, path: string, isEntry: bool)
    requires Tree(t) && WalkH(t, path, Look, "") && FindKind(t, path, isEntry).Ok? &&
             FindKind(t, path, isEntry).value != 0
    ensures var n := FindKind(t, path, isEntry).value; n in t.nodes && t.nodes[n].isDir == !isEntry
  {
    FindUnderH(t, path, Look, "");
    BoundBelowNext(t, path, false, Look, "");
  }

  lemma CreateIsRight(t: Tables, path: string, node: nat, isEntry: bool, parents: bool, now: string)
    requires Tree(t) && WalkH(t, path, Make(parents, !isEntry), now)
    requires Perform(t, path, node, false, CreateOp(isEntry, parents), now).Done?
    ensures Careful(t, path, node, false, CreateOp(isEntry, parents), now)
    ensures var r := Perform(t, path, node, false, CreateOp(isEntry, parents), now);
            r.node in r.t.nodes && r.t.nodes[r.node].isDir == !isEntry
  {
    FindUnderH(t, path, Make(parents, !isEntry), now);
  }

  lemma LeafIsChildless(t: Tables, n: nat)
    requires Tree(t) && n in t.nodes && !t.nodes[n].isDir
    ensures n != ROOT && Childless(t, n)
  {
    assert RowOk(ROOT, t.nodes[ROOT], t.next);
    forall i | i in t.nodes ensures t.nodes[i].parent != n {
      assert RowOk(i, t.nodes[i], t.next);
      if i != ROOT { assert HasParent(t, i); }
    }
  }

  /** The number an attempt binds is right. */
  lemma AfterFailIsRight(t: Tables, c: Call, f: Failure)
    requires Tree(t) && CallOk(t, c) && CallRight(t, c) && (Checked(c.op) ==> CallHAndR(t, c, ""))
    ensures CallRight(t, AfterFail(t, c, f))
  {
    AfterFailOk(t, c, f);
    if Checked(c.op) && c.node == 0 && AfterFail(t, c, f).node != 0 {
      FindKindIsRight(t, c.path, !c.op.RemoveDirectory? && !c.op.List?);
    }
  }

  lemma OnNodeIsCareful(t: Tables, n: nat, op: Op, now: string)
    requires Tree(t) && OnNodeRight(t, n, op) && !Creates(op) && OnNode(t, n, false, op, now).Done?
    ensures CarefulOn(t, n, op)
  {
    if op.Remove? || op.Store? { LeafIsChildless(t, n); }
  }

  predicate OnNodeRight(t: Tables, n: nat, op: Op) {
    && (op.Remove? || op.Store? ==> n in t.nodes ==> !t.nodes[n].isDir)
    && (op.RemoveDirectory? ==> n != ROOT && (n in t.nodes ==> t.nodes[n].isDir))
  }

  lemma FinishIsCareful(t: Tables, c: Call, now: string)
    requires Tree(t) && CallOk(t, c) && CallRight(t, c) && CallHAndR(t, c, now) && FinishOutcome(t, c, now).Done?
    ensures Careful(t, c.path, c.node, false, c.op, now)
  {
    if Creates(c.op) {
      CreateIsRight(t, c.path, c.node, c.op.CreateEntry?, c.op.parents, now);
    } else {
      var n := FinishOutcome(t, c, now).node;
      if c.node == 0 { FindKindIsRight(t, c.path, !c.op.RemoveDirectory? && !c.op.List?); }
      OnNodeIsCareful(t, n, c.op, now);
    }
  }

  lemma ActIsCareful(t: Tables, ob: Object, op: Op, now: string)
    requires Tree(t) && ob.hd.node != 0 && NodeRight(t, ob.hd) && Allowed(ob.hd.isEntry, op)
    requires op.RemoveDirectory? ==> ob.hd.node != ROOT
    requires ActOutcome(t, ob, op, now).Done?
    ensures Careful(t, PathOfUrl(ob.location), ob.hd.node, false, op, now)
  {
    CachedNodeStays(t, ob, op, now);
    OnNodeIsCareful(t, ob.hd.node, op, now);
  }

  /** Under H and R every step is careful. */
  lemma HAndRIsCareful(s: System, e: Event, quiet: bool)
    requires Truthful(s, quiet) && HAndR(s, e)
    ensures CarefulStep(s, e)
  {
    if Enabled(s, e) {
      if e.Open? {
        if (e.create || e.parents) && OpenStep(s.t, e.isEntry, e.url, e.create, e.parents, e.now).Opened? {
          CreateIsRight(s.t, PathOfUrl(e.url), 0, e.isEntry, e.parents, e.now);
        }
      } else if e.Act? {
        if ActOutcome(s.t, s.objects[e.h], e.op, e.now).Done? { ActIsCareful(s.t, s.objects[e.h], e.op, e.now); }
      } else if e.Finish? {
        assert CallOk(s.t, s.calls[e.c]) && CallRight(s.t, s.calls[e.c]);
        if FinishOutcome(s.t, s.calls[e.c], e.now).Done? { FinishIsCareful(s.t, s.calls[e.c], e.now); }
      }
    }
  }

  /** One step under H and R keeps the tree and every handle truthful, and list's assertion holds. */
  lemma NextKeepsTruth(s: System, e: Event, quiet: bool)
    requires Truthful(s, quiet) && HAndR(s, e) && (quiet ==> !e.ForcedFind?)
    ensures Truthful(Next(s, e), quiet)
    ensures quiet && e.Act? && Enabled(s, e) ==> AssertHolds(s.objects[e.h].hd, e.op)
  {
    HAndRIsCareful(s, e, quiet);
    NextKeepsTreeIff(s, e);
    NextKeepsBase(s, e);
    var s' := Next(s, e);
    forall h | h in s'.objects
      ensures NodeRight(s'.t, s'.objects[h].hd) && (quiet || s'.objects[h].hd.isEntry ==> KindRight(s'.objects[h].hd))
    {
      HandleAfter(s, e, quiet, h);
    }
    forall c | c in s'.calls ensures CallRight(s'.t, s'.calls[c]) { CallAfter(s, e, quiet, c); }
  }

  lemma CallAfter(s: System, e: Event, quiet: bool, c: nat)
    requires Truthful(s, quiet) && HAndR(s, e) && c in Next(s, e).calls && Evolves(s.t, Next(s, e).t)
    ensures CallRight(Next(s, e).t, Next(s, e).calls[c])
  {
    if c in s.calls {
      assert CallOk(s.t, s.calls[c]) && CallRight(s.t, s.calls[c]);
      if Enabled(s, e) && e.Fail? && e.c == c { AfterFailIsRight(s.t, s.calls[c], e.failure); }
    }
  }

  lemma OldHandleStays(t: Tables, t': Tables, hd: Handle)
    requires Evolves(t, t') && NodeRight(t, hd) && hd.node < t.next
    ensures NodeRight(t', hd)
  {
  }

  lemma OpenedIsRight(t: Tables, isEntry: bool, url: string, create: bool, parents: bool, now: string)
    requires Tree(t) && OpenStep(t, isEntry, url, create, parents, now).Opened?
    requires create || parents ==> WalkH(t, PathOfUrl(url), Make(parents, !isEntry), now)
    requires !create && !parents ==> WalkH(t, PathOfUrl(url), Look, "")
    ensures var o := OpenStep(t, isEntry, url, create, parents, now);
            o.node in o.t.nodes && o.t.nodes[o.node].isDir == !isEntry
  {
    if create || parents {
      CreateIsRight(t, PathOfUrl(url), 0, isEntry, parents, now);
    } else {
      FindKindIsRight(t, PathOfUrl(url), isEntry);
    }
  }

  lemma ActKeepsKind(t: Tables, ob: Object, op: Op, now: string, quiet: bool)
    requires ob.hd.node != 0 && Allowed(ob.hd.isEntry, op) && (quiet || ob.hd.isEntry ==> KindRight(ob.hd))
    requires !Closes(op, ActOutcome(t, ob, op, now))
    ensures var hd' := AfterAct(ob.hd, op, ActOutcome(t, ob, op, now));
            hd'.node == ob.hd.node && hd'.isEntry == ob.hd.isEntry && (quiet || ob.hd.isEntry ==> KindRight(hd'))
  {
    CachedNodeStays(t, ob, op, now);
  }

  lemma HandleAfter(s: System, e: Event, quiet: bool, h: nat)
    requires Truthful(s, quiet) && HAndR(s, e) && (quiet ==> !e.ForcedFind?)
    requires h in Next(s, e).objects && Evolves(s.t, Next(s, e).t)
    ensures var hd := Next(s, e).objects[h].hd;
            NodeRight(Next(s, e).t, hd) && (quiet || hd.isEntry ==> KindRight(hd))
  {
    if h in s.objects { OldHandleStays(s.t, Next(s, e).t, s.objects[h].hd); }
    if Enabled(s, e) && !e.Begin? && !e.Fail? && !e.Finish? && e.h == h {
      if e.Open? {
        if OpenStep(s.t, e.isEntry, e.url, e.create, e.parents, e.now).Opened? {
          OpenedIsRight(s.t, e.isEntry, e.url, e.create, e.parents, e.now);
        }
      } else if e.Act? {
        ActKeepsKind(s.t, s.objects[h], e.op, e.now, quiet);
      } else if e.ChangeDir? {
        var full := FullPath(s.objects[h].location, e.path);
        if FindDirectory(s.t, full, true).Ok? && FindDirectory(s.t, full, true).value != 0 {
          FindKindIsRight(s.t, full, false);
        }
      }
    }
  }

  predicate HAndRAllAlong(s: System, es: seq<Event>)
    decreases |es|
  {
    es != [] ==> HAndR(s, es[0]) && HAndRAllAlong(Next(s, es[0]), es[1..])
  }

  /** Every run under H and R: the tables stay a tree, every entry handle has a non-zero node that, as
      long as it lives, is an entry, and the kind `entry`; directory handles likewise, the kind only in
      runs without recursive listings. */
  lemma {:induction false} RunUnderHAndR(s: System, es: seq<Event>, quiet: bool)
    requires Truthful(s, quiet) && HAndRAllAlong(s, es)
    requires quiet ==> forall e | e in es :: !e.ForcedFind?
    ensures TreeAllAlong(s, es) && Truthful(Run(s, es), quiet)
    decreases |es|
  {
    if es != [] {
      assert es[0] in es;
      NextKeepsTruth(s, es[0], quiet);
      RunUnderHAndR(Next(s, es[0]), es[1..], quiet);
    }
  }

  lemma FreshSystemIsTruthful(now: string)
    ensures Truthful(System(Initial(now), map[], map[]), true)
  {
    InitialIsTree(now);
  }

  // ------------------------------------------------- where the location of an object leads in a run

  /** The object's node is there. */
  predicate Alive(s: System, h: nat) {
    h in s.objects && s.objects[h].hd.node in s.t.nodes
  }

  predicate SettledObject(s: System, h: nat)
    requires Tree(s.t) && Alive(s, h)
  {
    Settled(s.t, s.objects[h].location, s.objects[h].hd.node)
  }

  /** Whether the object's location fits its node after the event, given whether it did before. Opening
      makes it fit; so does change_dir to a path that is there; change_dir to a path that is not there moves
      the location alone, which fits only if it spells the node's own path. */
  predicate FitsAfter(s: System, e: Event, h: nat, fits: bool)
    requires Tree(s.t)
  {
    if e.Open? && e.h == h && OpenStep(s.t, e.isEntry, e.url, e.create, e.parents, e.now).Opened? then true
    else if e.ChangeDir? && e.h == h && Enabled(s, e) then
      var full := FullPath(s.objects[h].location, e.path);
      match FindDirectory(s.t, full, true)
      case Err(_) => fits
      case Ok(n) => n != 0 || (Alive(s, h) && Settled(s.t, full, s.objects[h].hd.node))
    else fits
  }

  lemma NextSettled(s: System, e: Event, h: nat, fits: bool)
    requires SystemOk(s) && Tree(s.t) && Tree(Next(s, e).t) && Alive(Next(s, e), h)
    requires Alive(s, h) ==> fits == SettledObject(s, h)
    ensures FitsAfter(s, e, h, fits) == SettledObject(Next(s, e), h)
  {
    NextEvolves(s, e);
    var s' := Next(s, e);
    if e.Open? && e.h == h && OpenStep(s.t, e.isEntry, e.url, e.create, e.parents, e.now).Opened? {
      OpenSettles(s.t, e.isEntry, e.url, e.create, e.parents, e.now);
      SettledIff(s'.t, e.url, s'.objects[h].hd.node);
    } else if e.ChangeDir? && e.h == h && Enabled(s, e) {
      var full := FullPath(s.objects[h].location, e.path);
      if FindDirectory(s.t, full, true).Ok? {
        if FindDirectory(s.t, full, true).value != 0 {
          LookIsResolve(s.t, ROOT, false, Tokens(full, '/'), "");
          SettledIff(s.t, full, s'.objects[h].hd.node);
        }
      }
    } else {
      SameObject(s, e, h);
      SettledStays(s.t, s'.t, s.objects[h].location, s.objects[h].hd.node);
    }
  }

  lemma SameObject(s: System, e: Event, h: nat)
    requires SystemOk(s) && Evolves(s.t, Next(s, e).t) && Alive(Next(s, e), h)
    requires !(e.Open? && e.h == h && OpenStep(s.t, e.isEntry, e.url, e.create, e.parents, e.now).Opened?)
    requires !(e.ChangeDir? && e.h == h && Enabled(s, e))
    ensures Alive(s, h) && Next(s, e).objects[h].location == s.objects[h].location
    ensures Next(s, e).objects[h].hd.node == s.objects[h].hd.node
  {
    if Enabled(s, e) && e.Act? && e.h == h { CachedNodeStays(s.t, s.objects[h], e.op, e.now); }
  }

  lemma OpenSettles(t: Tables, isEntry: bool, url: string, create: bool, parents: bool, now: string)
    requires Base(t) && OpenStep(t, isEntry, url, create, parents, now).Opened?
    ensures var o := OpenStep(t, isEntry, url, create, parents, now); Target(o.t, url) == At(o.node)
  {
    var path := PathOfUrl(url);
    var toks := Tokens(path, '/');
    TokensAreClean(path, '/');
    if create || parents {
      MakeResolves(t, ROOT, false, toks, Make(parents, !isEntry), now);
    } else {
      LookIsResolve(t, ROOT, false, toks, "");
    }
  }

  predicate FitsAllAlong(s: System, es: seq<Event>, h: nat, fits: bool)
    requires TreeAllAlong(s, es)
    decreases |es|
  {
    if es == [] then fits else FitsAllAlong(Next(s, es[0]), es[1..], h, FitsAfter(s, es[0], h, fits))
  }

  /** Over every run on trees: the location of an object whose node lives leads to that node or nowhere if
      its last move was one that fits, and elsewhere or nowhere if it was not. */
  lemma {:induction false} LocationOverRuns(s: System, es: seq<Event>, h: nat, fits: bool)
    requires SystemOk(s) && TreeAllAlong(s, es) && Alive(Run(s, es), h)
    requires Alive(s, h) ==> fits == SettledObject(s, h)
    ensures Tree(Run(s, es).t)
    ensures var s', ob := Run(s, es), Run(s, es).objects[h];
            Target(s'.t, ob.location).At? ==>
              (Target(s'.t, ob.location) == At(ob.hd.node) <==> FitsAllAlong(s, es, h, fits))
    decreases |es|
  {
    if es == [] {
      var ob := s.objects[h];
      if Target(s.t, ob.location).At? { SettledIff(s.t, ob.location, ob.hd.node); }
    } else {
      NextKeepsBase(s, es[0]);
      if Alive(Next(s, es[0]), h) { NextSettled(s, es[0], h, fits); }
      LocationOverRuns(Next(s, es[0]), es[1..], h, FitsAfter(s, es[0], h, fits));
    }
  }

  /** So a run without change_dir to missing paths never leads an object's location astray. */
  lemma {:induction false} FitsWithoutStrayMoves(s: System, es: seq<Event>, h: nat)
    requires TreeAllAlong(s, es) && MovesAreThere(s, es, h)
    ensures FitsAllAlong(s, es, h, true)
    decreases |es|
  {
    if es != [] { FitsWithoutStrayMoves(Next(s, es[0]), es[1..], h); }
  }

  predicate MovesAreThere(s: System, es: seq<Event>, h: nat)
    decreases |es|
  {
    es != [] ==>
      && (es[0].ChangeDir? && es[0].h == h && h in s.objects
          ==> FindDirectory(s.t, FullPath(s.objects[h].location, es[0].path), true) != Ok(0))
      && MovesAreThere(Next(s, es[0]), es[1..], h)
  }

  lemma OpenTop(t: Tables, name: string, url: string, now: string)
    requires Base(t) && PlainName(name) && url == "/" + name && Lookup(t, name, ROOT) == 0
    ensures FindDirectory(t, url, true) == Ok(0)
    ensures OpenStep(t, false, url, true, false, now) == Opened(InsertNode(t, name, ROOT, true, now), t.next)
  {
    var toks := [name];
    TokensOfPathText(toks);
    assert PathText(toks) == url;
    assert toks[1..] == [];
    var t' := InsertNode(t, name, ROOT, true, now);
    assert WalkFrom(t', t.next, true, toks[1..], Make(false, true), now) == Reached(t', t.next, true);
    assert Find(t, url, false, Make(false, true), now) == Reached(t', t.next, true);
  }

  /** A directory object on node 2 moves to the missing /b, and another one creates /b. */
  lemma StrayMoves(t: Tables, now: string)
    requires Tree(t) && Lookup(t, "b", ROOT) == 0
    ensures var s := System(t, map[0 := Object(Handle(false, 2, Directory), "/a")], map[]);
            var s' := Next(Next(s, ChangeDir(0, "/b")), Open(1, false, "/b", true, false, now));
            && s'.t == InsertNode(t, "b", ROOT, true, now) && Tree(s'.t)
            && 0 in s'.objects && s'.objects[0] == Object(Handle(false, 2, Directory), "/b")
            && Target(s'.t, "/b") == At(t.next)
  {
    OpenTop(t, "b", "/b", now);
    InsertKeepsTree(t, "b", ROOT, true, now);
    OpenSettles(t, false, "/b", true, false, now);
    StrayMove(t);
  }

  lemma StrayMove(t: Tables)
    requires FindDirectory(t, "/b", true) == Ok(0)
    ensures Next(System(t, map[0 := Object(Handle(false, 2, Directory), "/a")], map[]), ChangeDir(0, "/b")) ==
            System(t, map[0 := Object(Handle(false, 2, Directory), "/b")], map[])
  {
  }

  lemma RunOfThree(s: System, a: Event, b: Event, c: Event)
    ensures Run(s, [a, b, c]) == Next(Next(Next(s, a), b), c)
  {
    assert [a, b, c][1..] == [b, c] && [b, c][1..] == [c] && [c][1..] == [];
    assert Run(Next(Next(s, a), b), [c]) == Next(Next(Next(s, a), b), c);
  }

  /** Open /a, change_dir to /b while it is missing, open /b: the first object is on node 2, its location
      leads to node 3. */
  lemma StrayIsReachable()
    ensures var es := [Open(0, false, "/a", true, false, "t1"), ChangeDir(0, "/b"),
                      Open(1, false, "/b", true, false, "t2")];
            var s := Run(System(Initial("t0"), map[], map[]), es);
            && Tree(s.t) && Alive(s, 0)
            && s.objects[0] == Object(Handle(false, 2, Directory), "/b") && Target(s.t, "/b") == At(3)
  {
    var t0 := Initial("t0");
    var s0 := System(t0, map[], map[]);
    var e0, e1, e2 := Open(0, false, "/a", true, false, "t1"), ChangeDir(0, "/b"),
                     Open(1, false, "/b", true, false, "t2");
    InitialIsTree("t0");
    OpenTop(t0, "a", "/a", "t1");
    InsertKeepsTree(t0, "a", ROOT, true, "t1");
    var t1 := InsertNode(t0, "a", ROOT, true, "t1");
    assert Next(s0, e0) == System(t1, map[0 := Object(Handle(false, 2, Directory), "/a")], map[]);
    assert Lookup(t1, "b", ROOT) == 0;
    StrayMoves(t1, "t2");
    RunOfThree(s0, e0, e1, e2);
  }
}
