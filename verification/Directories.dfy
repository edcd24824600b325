/** advertdirectory_cpi_impl: directory objects that make, remove, list and change directories. */
module Directories {
  import opened Connections
  import opened Errors
  import opened Growth
  import opened Handles
  import opened Listing
  import opened Locations
  import opened Operations
  import opened Pool
  import opened Recursion
  import opened Removal
  import opened Retry
  import opened Runs
  import opened Schema
  import opened Text
  import opened Walk

  /** make_dir: a look-up, then, if need be, a creation. */
  function MadeDir(t: Tables, path: string, parents: bool, exclusive: bool, now: string,
                   failures: seq<Failure>): Outcome {
    match FindDirectory(t, path, true)
    case Err(e) => Threw(t, e, 0)
    case Ok(n) =>
      if n != 0 then (if exclusive then Threw(t, ALREADY_EXISTS, n) else Done(t, n, false, Nothing))
      else Executed(t, path, 0, false, CreateDirectory(parents), now, failures)
  }

  function RemoveOp(recursive: bool): Op {
    if recursive then Op.RemoveDirectory else Op.Remove
  }

  /** remove of another entry: two look-ups, then the removal. A directory needs the recursive flag, an entry
      must not have it. */
  function RemovedEntry(t: Tables, path: string, recursive: bool, now: string, failures: seq<Failure>): Outcome {
    match FindEntry(t, path, false)
    case Err(e) => Threw(t, e, 0)
    case Ok(entry) =>
      match FindDirectory(t, path, false)
      case Err(e) => Threw(t, e, 0)
      case Ok(dir) =>
        if entry == 0 && dir == 0 then Threw(t, BAD_PARAMETER, 0)
        else if recursive != (entry == 0) then Threw(t, BAD_PARAMETER, 0)
        else Executed(t, path, 0, false, RemoveOp(recursive), now, failures)
  }

  lemma MadeDirKeepsBase(t: Tables, path: string, parents: bool, exclusive: bool, now: string, failures: seq<Failure>)
    requires Base(t) && Interference(t, failures)
    ensures var r := MadeDir(t, path, parents, exclusive, now, failures); Base(r.t) && Evolves(t, r.t)
  {
    ExecutedKeepsBase(t, path, 0, false, CreateDirectory(parents), now, failures);
  }

  lemma RemovedEntryKeepsBase(t: Tables, path: string, recursive: bool, now: string, failures: seq<Failure>)
    requires Base(t) && Interference(t, failures)
    ensures var r := RemovedEntry(t, path, recursive, now, failures); Base(r.t) && Evolves(t, r.t)
  {
    ExecutedKeepsBase(t, path, 0, false, RemoveOp(recursive), now, failures);
  }

  /** Once made, a directory is there: the same call changes nothing, an exclusive one refuses. Making it
      took nothing away from the tables of its last attempt. */
  lemma MadeDirIsThere(t: Tables, path: string, parents: bool, exclusive: bool, now: string, failures: seq<Failure>,
                       later: string)
    requires Base(t) && Interference(t, failures) && MadeDir(t, path, parents, exclusive, now, failures).Done?
    ensures var r := MadeDir(t, path, parents, exclusive, now, failures);
            && r.node != 0
            && MadeDir(r.t, path, parents, false, later, []) == Done(r.t, r.node, false, Nothing)
            && MadeDir(r.t, path, parents, true, later, []) == Threw(r.t, ALREADY_EXISTS, r.node)
            && Grown(if FindDirectory(t, path, true) == Ok(0) then LastBegun(t, failures) else t, r.t)
  {
    if FindDirectory(t, path, true) == Ok(0) {
      var op := CreateDirectory(parents);
      ExecutedIsLastAttempt(t, path, 0, false, op, now, failures);
      CreateRetries(t, path, 0, false, op, now, failures);
      LastBegunEvolves(t, failures);
      MakeIsMkdirP(LastBegun(t, failures), path, false, parents, true, now, "");
    }
  }

  /** An exclusive make_dir finds nothing when it looks. What it answers for is an old node all the same exactly
      if the normalised path leads to one when its last attempt begins. */
  lemma ExclusiveDirIff(t: Tables, path: string, parents: bool, now: string, failures: seq<Failure>)
    requires Base(t) && Base(LastBegun(t, failures)) && MadeDir(t, path, parents, true, now, failures).Done?
    ensures !Target(t, path).At? && (Undisturbed(t, failures) ==> LastBegun(t, failures) == t)
    ensures var r, u := MadeDir(t, path, parents, true, now, failures), LastBegun(t, failures);
            var p := Resolve(u, ROOT, Normalize(Tokens(path, '/')));
            && (r.node < u.next <==> p.At?) && (p.At? ==> p == At(r.node))
            && (Tree(u) ==> (r.node in u.nodes <==> r.node < u.next))
  {
    var op, toks := CreateDirectory(parents), Tokens(path, '/');
    LookIsResolve(t, ROOT, false, toks, "");
    if Target(t, path).At? { ResolvedIsPositive(t, ROOT, toks); }
    ExecutedIsLastAttempt(t, path, 0, false, op, now, failures);
    CreateRetries(t, path, 0, false, op, now, failures);
    EndIsOldIff(LastBegun(t, failures), path, false, parents, true, now);
    if Undisturbed(t, failures) { LastBegunUndisturbed(t, failures); }
  }

  // ------------------------------------------------- the node that a path given to a directory object leads to

  /** A look-up that does not throw says where the path leads, or that it leads nowhere. */
  lemma FoundIsTarget(t: Tables, path: string)
    requires Base(t) && FindDirectory(t, path, true).Ok?
    ensures match Target(t, path)
            case At(n) => FindDirectory(t, path, true) == Ok(n) && n != 0
            case Missing => FindDirectory(t, path, true) == Ok(0)
            case Stuck(_) => false
  {
    LookIsResolve(t, ROOT, false, Tokens(path, '/'), "");
    if Target(t, path).At? { ResolvedIsPositive(t, ROOT, Tokens(path, '/')); }
  }

  lemma MadeDirLeads(t: Tables, path: string, parents: bool, exclusive: bool, now: string, failures: seq<Failure>)
    requires Base(t) && Interference(t, failures) && MadeDir(t, path, parents, exclusive, now, failures).Done?
    ensures var r := MadeDir(t, path, parents, exclusive, now, failures); Target(r.t, path) == At(r.node)
  {
    FoundIsTarget(t, path);
    if FindDirectory(t, path, true) == Ok(0) {
      var op, u := CreateDirectory(parents), LastBegun(t, failures);
      ExecutedIsLastAttempt(t, path, 0, false, op, now, failures);
      CreateRetries(t, path, 0, false, op, now, failures);
      LastBegunEvolves(t, failures);
      TokensAreClean(path, '/');
      MakeResolves(u, ROOT, false, Tokens(path, '/'), Make(parents, true), now);
    }
  }

  lemma MadeDirIsAt(t: Tables, location: string, path: string, parents: bool, exclusive: bool, now: string,
                    failures: seq<Failure>)
    requires Base(t) && Interference(t, failures)
    ensures var r := MadeDir(t, FullPath(location, path), parents, exclusive, now, failures);
            r.Done? ==> TargetFrom(r.t, location, path) == At(r.node)
  {
    var r := MadeDir(t, FullPath(location, path), parents, exclusive, now, failures);
    FullPathLeads(r.t, location, path);
    if r.Done? { MadeDirLeads(t, FullPath(location, path), parents, exclusive, now, failures); }
  }

  /** The path led to node m at the begin of some attempt. */
  predicate LedOnTheWay(t: Tables, location: string, path: string, failures: seq<Failure>, m: nat)
    decreases |failures|
  {
    || TargetFrom(t, location, path) == At(m)
    || (failures != [] && LedOnTheWay(failures[0].next, location, path, failures[1..], m))
  }

  lemma BoundLeads(t: Tables, path: string, recursive: bool, now: string)
    requires Base(t)
    ensures var b := Bind(t, path, 0, false, RemoveOp(recursive), "");
            b.Bound? && b.node != 0 ==> Target(t, path) == At(b.node)
    ensures var r := Perform(t, path, 0, false, RemoveOp(recursive), now); r.Done? ==> Target(t, path) == At(r.node)
  {
    LookIsResolve(t, ROOT, false, Tokens(path, '/'), "");
  }

  lemma {:induction false} RemovedWasLedTo(t: Tables, location: string, path: string, recursive: bool, now: string,
                                           failures: seq<Failure>)
    requires Base(t) && Interference(t, failures)
    requires Executed(t, FullPath(location, path), 0, false, RemoveOp(recursive), now, failures).Done?
    ensures LedOnTheWay(t, location, path, failures,
                        Executed(t, FullPath(location, path), 0, false, RemoveOp(recursive), now, failures).node)
    decreases |failures|
  {
    var full, op := FullPath(location, path), RemoveOp(recursive);
    FullPathLeads(t, location, path);
    BoundLeads(t, full, recursive, now);
    if failures != [] {
      var rf := AfterFailure(t, full, Refs(0, false, op), failures[0]);
      if rf.node == 0 {
        RemovedWasLedTo(failures[0].next, location, path, recursive, now, failures[1..]);
      } else {
        CachedRetries(failures[0].next, full, rf.node, false, op, now, failures[1..]);
      }
    }
  }

  lemma RemovedEntryWasLedTo(t: Tables, location: string, path: string, recursive: bool, now: string,
                             failures: seq<Failure>)
    requires Base(t) && Interference(t, failures)
    ensures var r := RemovedEntry(t, FullPath(location, path), recursive, now, failures);
            r.Done? ==> LedOnTheWay(t, location, path, failures, r.node)
  {
    if RemovedEntry(t, FullPath(location, path), recursive, now, failures).Done? {
      RemovedWasLedTo(t, location, path, recursive, now, failures);
    }
  }

  /** The tables are a tree, and the path meets H, at the begin of every attempt. */
  predicate HAllTheWay(t: Tables, path: string, failures: seq<Failure>)
    decreases |failures|
  {
    Tree(t) && WalkH(t, path, Look, "") && (failures != [] ==> HAllTheWay(failures[0].next, path, failures[1..]))
  }

  lemma {:induction false} HAtLast(t: Tables, path: string, failures: seq<Failure>)
    requires HAllTheWay(t, path, failures)
    ensures Tree(LastBegun(t, failures)) && WalkH(LastBegun(t, failures), path, Look, "")
    decreases |failures|
  {
    if failures != [] && failures[0].resolvable { HAtLast(failures[0].next, path, failures[1..]); }
  }

  /** A number found on the way is still of the kind looked for, if the node is there. */
  lemma {:induction false} FoundKindStays(t: Tables, path: string, recursive: bool, now: string, failures: seq<Failure>,
                                          m: nat)
    requires HAllTheWay(t, path, failures) && Interference(t, failures) && m != 0
    requires FoundOnTheWay(t, path, false, RemoveOp(recursive), failures, m)
    ensures var u := LastBegun(t, failures); m in u.nodes ==> u.nodes[m].isDir == recursive
    decreases |failures|
  {
    if Bind(t, path, 0, false, RemoveOp(recursive), "") == Bound(m, false) {
      FindKindIsRight(t, path, !recursive);
      LastBegunEvolves(t, failures);
    } else {
      FoundKindStays(failures[0].next, path, recursive, now, failures[1..], m);
    }
  }

  /** Under H, what is removed is a node the path leads, or led at an earlier attempt, to: alone if it is an
      entry, with its whole subtree if it is a directory other than the root. With it goes its metadata and that
      of its subtree; all other rows stay, but for the time stamp of its parent. */
  lemma RemovedEntryIsExact(t: Tables, path: string, recursive: bool, now: string, failures: seq<Failure>)
    requires HAllTheWay(t, path, failures) && Interference(t, failures)
    requires RemovedEntry(t, path, recursive, now, failures).Done?
    ensures var r, u := RemovedEntry(t, path, recursive, now, failures), LastBegun(t, failures);
            && (Target(u, path) == At(r.node) || FoundOnTheWay(t, path, false, RemoveOp(recursive), failures, r.node))
            && Tree(u) && r.node in u.nodes && recursive == u.nodes[r.node].isDir
            && r.t == Pruned(u, r.node, !recursive, now)
            && Unrecorded(u.meta, r.t.meta, Subtree(u, r.node), u.nodes[r.node].parent, now)
            && (r.node != ROOT ==>
                  Tree(r.t) && r.t.nodes == u.nodes - Subtree(u, r.node) && r.t.data == u.data - Subtree(u, r.node))
  {
    var u, n := LastBegun(t, failures), RemovedEntry(t, path, recursive, now, failures).node;
    HAtLast(t, path, failures);
    RemovedNode(t, path, recursive, now, failures);
    PrunedKeepsBase(u, n, !recursive, now);
    if recursive {
      DoomedIsSubtree(u, n);
      if n != ROOT { SubtreeRemovalIsExact(u, n, now); }
    } else {
      LeafRemovalIsExact(u, n, now);
    }
    assert u.nodes.Keys - Pruned(u, n, !recursive, now).nodes.Keys == Subtree(u, n);
  }

  /** Undisturbed and under H, remove of another entry, case by case: it removes what the path leads to if the
      recursive flag is given for a directory and not for an entry, and throws otherwise. */
  lemma RemovedEntryByCases(t: Tables, path: string, recursive: bool, now: string)
    requires Tree(t) && WalkH(t, path, Look, "") && path != "" && path[0] == '/'
    ensures var r := RemovedEntry(t, path, recursive, now, []);
            match Target(t, path)
            case Stuck(e) => r == Threw(t, e, 0)
            case Missing => r == Threw(t, BAD_PARAMETER, 0)
            case At(n) =>
              && n in t.nodes
              && if recursive == t.nodes[n].isDir then r.Done? && r.node == n else r == Threw(t, BAD_PARAMETER, 0)
  {
    FoundKinds(t, path);
    if Target(t, path).At? {
      var n := Target(t, path).node;
      if recursive == t.nodes[n].isDir { assert Bind(t, path, 0, false, RemoveOp(recursive), "") == Bound(n, false); }
    }
  }

  /** What the look-ups say under H. */
  lemma FoundKinds(t: Tables, path: string)
    requires Tree(t) && WalkH(t, path, Look, "") && path != "" && path[0] == '/'
    ensures match Target(t, path)
            case Stuck(e) => Find(t, path, false, Look, "") == Thrown(e)
            case Missing => Find(t, path, false, Look, "") == Reached(t, 0, false)
            case At(n) => n != 0 && n in t.nodes && Find(t, path, false, Look, "") == Reached(t, n, t.nodes[n].isDir)
  {
    LookIsResolve(t, ROOT, false, Tokens(path, '/'), "");
    TargetIsLive(t, path);
    if Find(t, path, false, Look, "").Reached? { FindUnderH(t, path, Look, ""); }
  }

  /** Undisturbed and under H, make_dir without CreateParents, case by case: it makes the directory if only its last
      name is missing. */
  lemma MadeDirByCases(t: Tables, path: string, exclusive: bool, now: string)
    requires Tree(t) && WalkH(t, path, Look, "") && path != "" && path[0] == '/'
    ensures var r, p := MadeDir(t, path, false, exclusive, now, []), Target(t, path);
            && (p.Stuck? ==> r == Threw(t, p.error, 0))
            && (p.At? ==> p.node in t.nodes)
            && (p.At? ==>
                  r == if !t.nodes[p.node].isDir then Threw(t, ALREADY_EXISTS, 0)
                       else if exclusive then Threw(t, ALREADY_EXISTS, p.node) else Done(t, p.node, false, Nothing))
    ensures Target(t, path).Missing? ==>
              var r, g := MadeDir(t, path, false, exclusive, now, []), GapOf(t, ROOT, Tokens(path, '/'));
              if g.rest != [] && g.rest != ["."] then r == Threw(t, NO_SUCCESS, 0)
              else r.Done? && r.node == t.next && r.t.nodes == t.nodes[t.next := NodeRow(g.name, g.parent, true)]
  {
    FoundKinds(t, path);
    MakeWithoutParents(t, ROOT, false, Tokens(path, '/'), true, now);
  }

  /** Undisturbed and under H, a constructor, case by case: it opens what is there if it is of the object's class,
      unless the Exclusive flag comes with a create flag. */
  lemma OpenByCases(t: Tables, isEntry: bool, url: string, create: bool, parents: bool, exclusive: bool, now: string)
    requires Tree(t) && WalkH(t, PathOfUrl(url), Look, "")
    ensures var o := OpenAt(t, isEntry, url, create, parents, exclusive, now, []);
            && (url != "" && url[0] != '/' ==> o == NotOpened(t, INCORRECT_URL))
            && (Absolute(url) ==>
                  match Target(t, url)
                  case Stuck(e) => !create && !parents ==> o == NotOpened(t, e)
                  case Missing => !create && !parents ==> o == NotOpened(t, DOES_NOT_EXIST)
                  case At(n) =>
                    && n in t.nodes
                    && o == if isEntry == t.nodes[n].isDir || (exclusive && (create || parents))
                            then NotOpened(t, ALREADY_EXISTS) else Opened(t, n))
  {
    if Absolute(url) {
      var path := PathOfUrl(url);
      FoundKinds(t, path);
      if Target(t, url).At? {
        FoundIsLook(t, ROOT, false, Tokens(path, '/'), Make(parents, !isEntry), now);
        LookIsResolve(t, ROOT, false, Tokens(path, '/'), "");
        LookIsResolve(t, ROOT, false, Tokens(path, '/'), now);
      }
    }
  }

  lemma RemovedNode(t: Tables, path: string, recursive: bool, now: string, failures: seq<Failure>)
    requires HAllTheWay(t, path, failures) && Interference(t, failures)
    requires RemovedEntry(t, path, recursive, now, failures).Done?
    ensures var r, u := RemovedEntry(t, path, recursive, now, failures), LastBegun(t, failures);
            && (Target(u, path) == At(r.node) || FoundOnTheWay(t, path, false, RemoveOp(recursive), failures, r.node))
            && r.node in u.nodes && recursive == u.nodes[r.node].isDir
            && r.t == Pruned(u, r.node, !recursive, now)
  {
    var op, u := RemoveOp(recursive), LastBegun(t, failures);
    var rf0 := Refs(0, false, op);
    HAtLast(t, path, failures);
    ExecutedIsLastAttempt(t, path, 0, false, op, now, failures);
    CheckedKeepsOp(t, path, rf0, failures);
    var rf := LastRefs(t, path, rf0, failures);
    if rf.node == 0 {
      FindKindIsRight(u, path, !recursive);
      LookIsResolve(u, ROOT, false, Tokens(path, '/'), "");
    } else {
      BoundNumberWasFound(t, path, rf0, op, failures);
      FoundKindStays(t, path, recursive, now, failures, rf.node);
    }
  }

  lemma LeafRemovalIsExact(t: Tables, n: nat, now: string)
    requires Tree(t) && n in t.nodes && !t.nodes[n].isDir
    ensures n != ROOT && Tree(Pruned(t, n, true, now))
    ensures Pruned(t, n, true, now).nodes == t.nodes - Subtree(t, n) &&
            Pruned(t, n, true, now).data == t.data - Subtree(t, n)
  {
    LeafIsChildless(t, n);
    PrunedKeepsTreeIff(t, n, true, now);
    EntryAlone(t, n);
    forall x | x in t.nodes ensures PathOf(t, n) <= PathOf(t, x) <==> x == n {
      UnderIffPrefix(t, n, x);
      if Under(t.nodes, n, false, x) && x != n { BranchIsChild(t, n, x); }
    }
    assert Subtree(t, n) == {n};
  }

  lemma DirectoryBelow(t: Tables, path: string)
    requires Base(t)
    ensures FindDirectory(t, path, true).Ok? ==> FindDirectory(t, path, true).value < t.next
  {
    if FindDirectory(t, path, true).Ok? { BoundBelowNext(t, path, false, Look, ""); }
  }

  lemma MovedTo(t: Tables, location: string, path: string)
    requires Base(t)
    ensures var p, found := TargetFrom(t, location, path), FindDirectory(t, FullPath(location, path), true);
            && Target(t, FullPath(location, path)) == p
            && (found.Ok? ==> !p.Stuck? && found.value == if p.At? then p.node else 0)
            && (p.At? ==> p.node != 0)
  {
    FullPathLeads(t, location, path);
    if FindDirectory(t, FullPath(location, path), true).Ok? { FoundIsTarget(t, FullPath(location, path)); }
    if Target(t, FullPath(location, path)).At? {
      ResolvedIsPositive(t, ROOT, Tokens(FullPath(location, path), '/'));
    }
  }

  class DirectoryObject {
    var location: string
    const canRead: bool
    const canWrite: bool
    const db: Database
    const pool: ConnectionCache
    var isOpen: bool

    /** The object as it is before the body of its constructor, which is Init. */
    constructor (location: string, canRead: bool, canWrite: bool, dbType: nat, connectString: string,
                 pool: ConnectionCache)
      requires pool.Valid() && CacheKey(dbType, connectString) in pool.databases
      requires Base(pool.databases[CacheKey(dbType, connectString)].tables)
      ensures Valid() && !isOpen && this.location == location && this.canRead == canRead && this.canWrite == canWrite
      ensures fresh(db) && db.node == 0 && db.kind == Unknown && this.pool == pool
      ensures db.dbType == dbType && db.connectString == connectString
    {
      this.location, this.canRead, this.canWrite, this.pool, isOpen := location, canRead, canWrite, pool, false;
      db := new Database(dbType, connectString);
    }

    function Key(): CacheKey {
      CacheKey(db.dbType, db.connectString)
    }

    function TheStore(): Store
      requires Key() in pool.databases
    {
      pool.databases[Key()]
    }

    function Tables(): Tables
      requires Key() in pool.databases
      reads TheStore()
    {
      TheStore().tables
    }

    /** Between calls; an open directory object has a node and an absolute location. Its kind may be
        anything after a recursive listing. */
    ghost predicate Valid()
      reads this, db, pool, if Key() in pool.databases then {TheStore()} else {}
    {
      && pool.Valid() && Key() in pool.databases && Base(Tables())
      && db.connection == null
      && (isOpen ==> 1 <= db.node < Tables().next && Absolute(location))
    }

    /** The object of Runs that this one is. */
    function AsObject(): Object
      reads this, db
    {
      Object(db.AsHandle(false), location)
    }

    /** The body of the constructor. */
    method Init(create: bool, parents: bool, exclusive: bool, now: string, failures: seq<Failure>, clock: int)
        returns (r: Result<()>)
      requires Valid() && !isOpen && db.node == 0 && db.kind == Unknown && Interference(Tables(), failures)
      modifies this`isOpen, db, pool, TheStore()
      ensures Valid() && pool.held == old(pool.held)
      ensures Tables() == OpenAt(old(Tables()), false, location, create, parents, exclusive, now, failures).t
      ensures match OpenAt(old(Tables()), false, location, create, parents, exclusive, now, failures)
              case Opened(_, n) => r.Ok? && isOpen && AsObject() == Object(Handle(false, n, Directory), location)
              case NotOpened(_, e) => r == Err(e) && !isOpen
    {
      var path := PathOfUrl(location);
      if path[0] != '/' { return Err(INCORRECT_URL); }
      OpenAtKeepsBase(Tables(), false, location, create, parents, exclusive, now, failures);
      db.EnterScope(pool);
      r := InitInScope(path, create, parents, exclusive, now, failures);
      isOpen := r.Ok?;
      db.LeaveScope(pool, clock);
    }

    method InitInScope(path: string, create: bool, parents: bool, exclusive: bool, now: string, failures: seq<Failure>)
        returns (r: Result<()>)
      requires path == PathOfUrl(location) && path[0] == '/'
      requires db.Connected() && db.node == 0 && db.kind == Unknown && Interference(db.Tables(), failures)
      modifies db`node, db`kind, db.connection.store
      ensures db.Tables() == OpenAt(old(db.Tables()), false, location, create, parents, exclusive, now, failures).t
      ensures match OpenAt(old(db.Tables()), false, location, create, parents, exclusive, now, failures)
              case Opened(_, n) => r.Ok? && db.AsHandle(false) == Handle(false, n, Directory)
              case NotOpened(_, e) => r == Err(e)
    {
      ghost var t0 := db.Tables();
      if (create || parents) && exclusive {
        var exists_ := db.ExistsDirectory(path, true);
        if exists_.Err? { return Err(exists_.error); }
        if exists_.value { return Err(ALREADY_EXISTS); }
      }
      if create || parents {
        var c := db.CreateDirectory(path, parents, now, failures);
        if c.Threw? { return Err(c.error); }
        ExecutedKeepsBase(t0, path, 0, false, Op.CreateDirectory(parents), now, failures);
      }
      var found := db.ExistsDirectory(path, true);
      if found.Err? { return Err(found.error); }
      if !found.value { return Err(DOES_NOT_EXIST); }
      return Ok(());
    }

    /** A forced call through a node reference of its own, as remove_other, remove_directory_other and
        create_new_directory make. */
    method Elsewhere(path: string, op: Op, now: string, failures: seq<Failure>) returns (r: Outcome)
      requires db.Connected() && Interference(db.Tables(), failures)
      modifies db.connection.store
      ensures r == Executed(old(db.Tables()), path, 0, false, op, now, failures) && db.Tables() == r.t
    {
      r := db.connection.Execute(path, 0, false, op, now, failures);
    }

    method MakeDir(path: string, parents: bool, exclusive: bool, now: string, failures: seq<Failure>, clock: int)
        returns (r: Outcome)
      requires Valid() && Interference(Tables(), failures)
      modifies db, pool, TheStore()
      ensures Valid() && pool.held == old(pool.held) && AsObject() == old(AsObject())
      ensures r == if !isOpen then Threw(old(Tables()), INCORRECT_STATE, 0)
                   else if !canWrite then Threw(old(Tables()), PERMISSION_DENIED, 0)
                   else MadeDir(old(Tables()), FullPath(location, path), parents, exclusive, now, failures)
      ensures Tables() == r.t
      ensures r.Done? ==> TargetFrom(r.t, location, path) == At(r.node)
    {
      if !isOpen { return Threw(Tables(), INCORRECT_STATE, 0); }
      if !canWrite { return Threw(Tables(), PERMISSION_DENIED, 0); }
      var dirPath := FullPath(location, path);
      MadeDirKeepsBase(Tables(), dirPath, parents, exclusive, now, failures);
      MadeDirIsAt(Tables(), location, path, parents, exclusive, now, failures);
      db.EnterScope(pool);
      var f := db.connection.FindDirectory(dirPath, true);
      if f.Err? {
        r := Threw(db.Tables(), f.error, 0);
      } else if f.value != 0 {
        r := if exclusive then Threw(db.Tables(), ALREADY_EXISTS, f.value)
             else Done(db.Tables(), f.value, false, Nothing);
      } else {
        r := Elsewhere(dirPath, Op.CreateDirectory(parents), now, failures);
      }
      db.LeaveScope(pool, clock);
    }

    method RemoveEntry(path: string, recursive: bool, now: string, failures: seq<Failure>, clock: int)
        returns (r: Outcome)
      requires Valid() && Interference(Tables(), failures)
      modifies db, pool, TheStore()
      ensures Valid() && pool.held == old(pool.held) && AsObject() == old(AsObject())
      ensures r == if !isOpen then Threw(old(Tables()), INCORRECT_STATE, 0)
                   else if !canWrite then Threw(old(Tables()), PERMISSION_DENIED, 0)
                   else RemovedEntry(old(Tables()), FullPath(location, path), recursive, now, failures)
      ensures Tables() == r.t
      ensures r.Done? ==> LedOnTheWay(old(Tables()), location, path, failures, r.node)
    {
      if !isOpen { return Threw(Tables(), INCORRECT_STATE, 0); }
      if !canWrite { return Threw(Tables(), PERMISSION_DENIED, 0); }
      var entryPath := FullPath(location, path);
      RemovedEntryKeepsBase(Tables(), entryPath, recursive, now, failures);
      RemovedEntryWasLedTo(Tables(), location, path, recursive, now, failures);
      db.EnterScope(pool);
      r := RemoveInScope(entryPath, recursive, now, failures);
      db.LeaveScope(pool, clock);
    }

    method RemoveInScope(entryPath: string, recursive: bool, now: string, failures: seq<Failure>) returns (r: Outcome)
      requires db.Connected() && Interference(db.Tables(), failures)
      modifies db.connection.store
      ensures r == RemovedEntry(old(db.Tables()), entryPath, recursive, now, failures) && db.Tables() == r.t
    {
      var e := db.connection.FindEntry(entryPath, false);
      if e.Err? { return Threw(db.Tables(), e.error, 0); }
      var d := db.connection.FindDirectory(entryPath, false);
      assert d.Ok?;
      if e.value != 0 {
        if recursive { return Threw(db.Tables(), BAD_PARAMETER, 0); }
        r := Elsewhere(entryPath, Op.Remove, now, failures);
      } else if d.value != 0 {
        if !recursive { return Threw(db.Tables(), BAD_PARAMETER, 0); }
        r := Elsewhere(entryPath, Op.RemoveDirectory, now, failures);
      } else {
        r := Threw(db.Tables(), BAD_PARAMETER, 0);
      }
    }

    /** change_dir. The answer of change_directory is not looked at: a path that leads nowhere throws
        nothing and moves the location, but not the node. */
    method ChangeDir(path: string, clock: int) returns (r: Result<()>)
      requires Valid()
      modifies this`location, db, pool, TheStore()
      ensures Valid() && pool.held == old(pool.held) && Tables() == old(Tables())
      ensures var full := FullPath(old(location), path);
              var found := FindDirectory(Tables(), full, true);
              && r == (if !isOpen then Err(INCORRECT_STATE)
                       else if !canWrite then Err(PERMISSION_DENIED)
                       else if found.Err? then Err(found.error) else Ok(()))
              && AsObject() ==
                 if r.Ok? then Object(AfterChangeDir(old(db.AsHandle(false)), found), full) else old(AsObject())
      ensures var p := TargetFrom(Tables(), old(location), path);
              r.Ok? ==>
                Target(Tables(), location) == p && !p.Stuck? && db.node == if p.At? then p.node else old(db.node)
    {
      if !isOpen { return Err(INCORRECT_STATE); }
      if !canWrite { return Err(PERMISSION_DENIED); }
      var full := FullPath(location, path);
      DirectoryBelow(Tables(), full);
      MovedTo(Tables(), location, path);
      db.EnterScope(pool);
      var c := db.ChangeDirectory(full);
      db.LeaveScope(pool, clock);
      if c.Err? { return Err(c.error); }
      location := full;
      return Ok(());
    }

    /** find with the recursive flag: the node is listed by its number, its children are looked up below the
        location. Callers have to see to list's assertion, which an earlier recursive listing may have
        broken. */
    method FindBelow(pattern: string -> bool, now: string, clock: int) returns (r: Result<seq<string>>)
      requires Valid() && Tree(Tables()) && !db.kind.Entry?
      modifies db, pool, TheStore()
      ensures Valid() && pool.held == old(pool.held) && Tables() == old(Tables()) && db.node == old(db.node)
      ensures !isOpen ==> r == Err(INCORRECT_STATE)
      ensures isOpen && !canRead ==> r == Err(PERMISSION_DENIED)
      ensures if isOpen && canRead then FoundBelow(Tables(), db.node, location, pattern, r, old(db.kind), db.kind)
              else db.kind == old(db.kind)
    {
      if !isOpen { return Err(INCORRECT_STATE); }
      if !canRead { return Err(PERMISSION_DENIED); }
      ghost var t := Tables();
      db.EnterScope(pool);
      r := FindInScope(pattern, now);
      db.LeaveScope(pool, clock);
      assert Tables() == t;
    }

    method FindInScope(pattern: string -> bool, now: string) returns (r: Result<seq<string>>)
      requires db.Connected() && db.node != 0 && Tree(db.Tables()) && !db.kind.Entry? && Absolute(location)
      modifies db`node, db`kind, db.connection.store
      ensures db.Tables() == old(db.Tables()) && db.node == old(db.node)
      ensures FoundBelow(db.Tables(), db.node, location, pattern, r, old(db.kind), db.kind)
    {
      ghost var t, n, p := db.Tables(), db.node, Target(db.Tables(), location);
      ghost var place := if p.At? then p.node else 0;
      TargetIsLive(t, location);
      r := FindRecursive(db, location, pattern, "", [], now, place, n, place);
      if r.Ok? && p.At? { EmptyFirst(ReportVia(t, n, place, pattern, pattern)); }
    }
  }

  /** What a recursive find by an object on node n answers, and the kind it leaves in the handle, given the kind
      before. It is refused if the node is gone. Otherwise it succeeds exactly if nothing matches, or the location
      leads to a directory that has a child of every matching name; then the report is the one seen from there.
      In any case the kind is that of the last child found. */
  predicate FoundBelow(t: Tables, n: nat, location: string, pattern: string -> bool, r: Result<seq<string>>, was: Kind,
                       kind: Kind)
    requires Tree(t) && n != 0
  {
    var p, names := Target(t, location), MatchingNames(t, n, pattern);
    if n !in t.nodes then r == Err(BAD_PARAMETER) && kind == was
    else
      && (r.Ok? <==> names == [] || (p.At? && AllThere(t, p.node, names)))
      && (r.Ok? && p.At? ==> p.node != 0 && r.value == ReportVia(t, n, p.node, pattern, pattern))
      && (r.Ok? && !p.At? ==> r.value == [])
      && (r.Err? ==> r.error == MissError(t, location))
      && kind == KindAfter(t, if p.At? then p.node else 0, FoundThere(t, location, names), pattern)
  }

  /** The assertion of the next list fails exactly if the location leads somewhere, some matching name is found
      there before one is missing, and the last one found is an entry or a directory from which an entry is
      reached by going to the youngest match every time. */
  lemma NextListFailsIff(t: Tables, n: nat, location: string, pattern: string -> bool, r: Result<seq<string>>,
                         was: Kind, kind: Kind)
    requires Tree(t) && n in t.nodes && n != 0
    ensures var p, found := Target(t, location), FoundThere(t, location, MatchingNames(t, n, pattern));
            FoundBelow(t, n, location, pattern, r, was, kind) ==>
              (!AssertHolds(Handle(false, n, kind), List(pattern, [])) <==>
               p.At? && EndsInLeaf(t, p.node, found, pattern))
  {
    if Target(t, location).At? {
      TargetIsLive(t, location);
      KindAfterIff(t, Target(t, location).node, FoundThere(t, location, MatchingNames(t, n, pattern)), pattern);
    }
  }

  /** When the location leads to the node itself the answer is its complete listing; then the assertion of the
      next list fails exactly if an entry is reached by going to the youngest match every time. */
  lemma FoundBelowSelf(t: Tables, n: nat, location: string, pattern: string -> bool, r: Result<seq<string>>, was: Kind,
                       kind: Kind)
    requires Tree(t) && n in t.nodes && n != 0 && Target(t, location) == At(n)
    ensures FoundBelow(t, n, location, pattern, r, was, kind) ==>
              && r == Ok(Report(t, n, pattern, pattern)) && kind == LastKind(t, n, pattern, pattern)
              && (!AssertHolds(Handle(false, n, kind), List(pattern, [])) <==> LeadsToLeaf(t, n, pattern, pattern))
  {
    ViaSelf(t, n, pattern, pattern);
    LastKindIff(t, n, pattern, pattern);
  }

  /** When it leads to another node m, the answer is right exactly if m has a child of every matching name and
      below these names the two have the same matching paths. */
  lemma FoundElsewhereIff(t: Tables, n: nat, location: string, pattern: string -> bool, r: Result<seq<string>>,
                          was: Kind, kind: Kind)
    requires Tree(t) && n in t.nodes && n != 0
    requires Target(t, location).At? && MatchingNames(t, n, pattern) != []
    ensures FoundBelow(t, n, location, pattern, r, was, kind) ==>
              ((r.Ok? && forall s :: s in r.value <==> s in Report(t, n, pattern, pattern)) <==>
               && AllThere(t, Target(t, location).node, MatchingNames(t, n, pattern))
               && (forall p | AllPlain(p) && NamesMatch(p, pattern, pattern) && Lookup(t, p[0], n) != 0 ::
                     Resolve(t, n, p).At? <==> Resolve(t, Target(t, location).node, p).At?))
  {
    TargetIsLive(t, location);
    if FoundBelow(t, n, location, pattern, r, was, kind) && r.Ok? {
      ViaRightIff(t, n, Target(t, location).node, pattern, pattern);
    }
  }

  /** /a is node 2 and holds the entry x; /b is node 3 and empty. */
  function HalfStray(): Tables {
    InsertNode(InsertNode(InsertNode(Initial(""), "a", ROOT, true, ""), "b", ROOT, true, ""), "x", 2, false, "")
  }

  /** The same, but /b holds the directory x, and x the entry y. */
  function FullStray(): Tables {
    InsertNode(InsertNode(HalfStray(), "x", 3, true, ""), "y", 5, false, "")
  }

  ghost predicate HoldsHalf(t: Tables) {
    && Tree(t) && t.next == 5 && 2 in t.nodes && 3 in t.nodes && 4 in t.nodes && t.nodes[3].isDir
    && Lookup(t, "b", ROOT) == 3 && Lookup(t, "x", 2) == 4 && !t.nodes[4].isDir && Lookup(t, "x", 3) == 0
    && forall name | name != "x" :: Lookup(t, name, 2) == 0
  }

  lemma HalfStrayIs()
    ensures HoldsHalf(HalfStray())
  {
    var t0 := Initial("");
    InitialIsTree("");
    InsertKeepsTree(t0, "a", ROOT, true, "");
    var t1 := InsertNode(t0, "a", ROOT, true, "");
    assert Lookup(t1, "b", ROOT) == 0;
    InsertKeepsTree(t1, "b", ROOT, true, "");
    var t2 := InsertNode(t1, "b", ROOT, true, "");
    assert Lookup(t2, "x", 2) == 0;
    InsertKeepsTree(t2, "x", 2, false, "");
    LookupIs(HalfStray(), "x", 2, 4);
    LookupIs(HalfStray(), "b", ROOT, 3);
  }

  ghost predicate HoldsStray(t: Tables) {
    && Tree(t) && 2 in t.nodes && 3 in t.nodes && 4 in t.nodes
    && Lookup(t, "x", 2) == 4 && !t.nodes[4].isDir && Lookup(t, "x", 3) == 5 && Lookup(t, "y", 5) == 6
    && forall name | name != "x" :: Lookup(t, name, 2) == 0
  }

  lemma FullStrayIs()
    ensures HoldsStray(FullStray())
  {
    HalfStrayIs();
    StrayGrows(HalfStray());
  }

  lemma StrayGrows(t: Tables)
    requires HoldsHalf(t)
    ensures HoldsStray(InsertNode(InsertNode(t, "x", 3, true, ""), "y", 5, false, ""))
  {
    InsertKeepsTree(t, "x", 3, true, "");
    var t1 := InsertNode(t, "x", 3, true, "");
    assert Lookup(t1, "y", 5) == 0;
    InsertKeepsTree(t1, "y", 5, false, "");
    var t2 := InsertNode(t1, "y", 5, false, "");
    LookupIs(t2, "x", 2, 4);
    LookupIs(t2, "x", 3, 5);
    LookupIs(t2, "y", 5, 6);
  }

  lemma PathOfB(t: Tables)
    requires Lookup(t, "b", ROOT) == 3
    ensures Target(t, "/b") == At(3)
  {
    var toks := ["b"];
    TokensOfPathText(toks);
    assert PathText(toks) == "/b" && toks[1..] == [];
  }

  /** An object on /a whose location leads to the empty /b, as in HalfStray: a recursive find fails. */
  lemma StrayFails(t: Tables, pattern: string -> bool)
    requires pattern("x") && HoldsHalf(t)
    ensures Target(t, "/b") == At(3) && !AllThere(t, 3, MatchingNames(t, 2, pattern))
    ensures forall r, was, kind :: FoundBelow(t, 2, "/b", pattern, r, was, kind) ==>
            r == Err(NO_SUCCESS) && kind == Directory
  {
    PathOfB(t);
    NamesAreExact(t, 2, pattern);
    assert "x" in MatchingNames(t, 2, pattern);
  }

  /** The same when /a holds the entries x and y and /b only an entry x: the find gets as far as x, fails at y,
      and leaves the kind `entry`, so that the assertion of the next list fails. */
  function HalfThere(): Tables {
    InsertNode(WithY(), "x", 3, false, "")
  }

  function WithY(): Tables {
    InsertNode(HalfStray(), "y", 2, false, "")
  }

  ghost predicate HoldsTwo(t: Tables) {
    && Tree(t) && 2 in t.nodes && 3 in t.nodes && 4 in t.nodes && 5 in t.nodes && 6 in t.nodes
    && (forall k | k in t.nodes :: t.nodes[k].parent == 2 <==> k == 4 || k == 5)
    && t.nodes[4].name == "x" && t.nodes[5].name == "y" && !t.nodes[6].isDir
    && Lookup(t, "b", ROOT) == 3 && Lookup(t, "x", 3) == 6 && Lookup(t, "y", 3) == 0
  }

  ghost predicate HoldsY(t: Tables) {
    && Tree(t) && t.next == 6 && t.nodes.Keys == {1, 2, 3, 4, 5} && t.nodes[3] == NodeRow("b", ROOT, true)
    && t.nodes[2].parent == ROOT && t.nodes[4] == NodeRow("x", 2, false) && t.nodes[5] == NodeRow("y", 2, false)
  }

  lemma WithYHolds()
    ensures HoldsY(WithY())
  {
    HalfStrayIs();
    InsertKeepsTree(HalfStray(), "y", 2, false, "");
  }

  lemma HalfThereIs()
    ensures HoldsTwo(HalfThere())
  {
    WithYHolds();
    XUnderB(WithY());
  }

  lemma XUnderB(t: Tables)
    requires HoldsY(t)
    ensures HoldsTwo(InsertNode(t, "x", 3, false, ""))
  {
    assert Lookup(t, "x", 3) == 0;
    InsertKeepsTree(t, "x", 3, false, "");
    var t' := InsertNode(t, "x", 3, false, "");
    LookupIs(t', "b", ROOT, 3);
    LookupIs(t', "x", 3, 6);
  }

  lemma TwoInOrder(s: seq<nat>, a: nat, b: nat)
    requires a < b && (forall k :: k in s <==> k == a || k == b) && forall i, j | 0 <= i < j < |s| :: s[i] < s[j]
    ensures s == [a, b]
  {
    assert a in s && b in s;
    var i :| 0 <= i < |s| && s[i] == a;
    var j :| 0 <= j < |s| && s[j] == b;
    forall k | 0 <= k < |s| ensures s[k] == a || s[k] == b { assert s[k] in s; }
    assert s[0] == a && s[1] == b && s[|s| - 1] == b;
  }

  lemma HalfWayFails(t: Tables, pattern: string -> bool)
    requires pattern("x") && pattern("y") && HoldsTwo(t)
    ensures forall r, was, kind :: FoundBelow(t, 2, "/b", pattern, r, was, kind) ==>
              r == Err(NO_SUCCESS) && kind == Entry && !AssertHolds(Handle(false, 2, kind), List(pattern, []))
  {
    PathOfB(t);
    ChildrenAre(t, 2);
    TwoInOrder(Matching(t, 2, pattern), 4, 5);
    var names := MatchingNames(t, 2, pattern);
    assert names == ["x", "y"];
    assert ["x", "y"][1..] == ["y"];
    assert FoundPrefix(t, 3, ["y"]) == [];
    assert FoundPrefix(t, 3, names) == ["x"];
    assert KindOfChild(t, 6, pattern) == Entry;
  }

  /** A location that leads nowhere while something below the node matches: the find fails at the first match. */
  lemma DanglingFails(t: Tables, n: nat, location: string, pattern: string -> bool, name: string)
    requires Tree(t) && n in t.nodes && n != 0 && Lookup(t, name, n) != 0 && pattern(name) && !Target(t, location).At?
    ensures forall r, was, kind :: FoundBelow(t, n, location, pattern, r, was, kind) ==>
              r == Err(MissError(t, location)) && kind == Directory
  {
    NamesAreExact(t, n, pattern);
    assert name in MatchingNames(t, n, pattern);
  }

  lemma PathsXY(t: Tables, e: nat, d: nat)
    requires Tree(t) && Lookup(t, "x", 2) == e != 0 && Lookup(t, "x", 3) == d != 0
    requires e in t.nodes && !t.nodes[e].isDir && Lookup(t, "y", d) != 0
    ensures Join(["x", "y"], '/') == "x/y" && !Resolve(t, 2, ["x", "y"]).At? && Resolve(t, 3, ["x", "y"]).At?
  {
    var p := ["x", "y"];
    assert p[1..] == ["y"] && p[1..][1..] == [];
    LeafIsChildless(t, e);
    if Lookup(t, "y", e) != 0 { LookupSound(t, "y", e); }
    assert Resolve(t, 2, p) == Resolve(t, e, p[1..]);
    assert Resolve(t, 3, p) == Resolve(t, d, p[1..]);
  }

  /** The same when /b holds a directory x with y in it, as in FullStray: the find reports x/y, which is not
      below /a. */
  lemma StrayReports(t: Tables, pattern: string -> bool)
    requires pattern("x") && pattern("y") && HoldsStray(t)
    ensures AllThere(t, 3, MatchingNames(t, 2, pattern))
    ensures "x/y" in ReportVia(t, 2, 3, pattern, pattern) && "x/y" !in Report(t, 2, pattern, pattern)
  {
    NamesAreExact(t, 2, pattern);
    PathsXY(t, 4, 5);
    PathReportedIff(t, 2, 3, pattern, pattern, ["x", "y"]);
  }
}
