/** advert_cpi_impl: the life of an advert entry object from construction to removal or close. */
module Entries {
  import opened Connections
  import opened Errors
  import opened Handles
  import opened Operations
  import opened Pool
  import opened Retry
  import opened Runs
  import opened Schema
  import opened Text

  /** check_permissions: what the object's mode has to allow. */
  predicate Permitted(op: Op, canRead: bool, canWrite: bool) {
    if op.GetAttribute? || op.Retrieve? then canRead else canWrite
  }

  class EntryObject {
    const url: string
    const canRead: bool
    const canWrite: bool
    const db: Database
    const pool: ConnectionCache
    var isOpen: bool

    /** The object as it is before the body of its constructor, which is Init. */
    constructor (url: string, canRead: bool, canWrite: bool, dbType: nat, connectString: string, pool: ConnectionCache)
      requires pool.Valid() && CacheKey(dbType, connectString) in pool.databases
      requires Base(pool.databases[CacheKey(dbType, connectString)].tables)
      ensures Valid() && !isOpen && this.url == url && this.canRead == canRead && this.canWrite == canWrite
      ensures fresh(db) && db.node == 0 && db.kind == Unknown && this.pool == pool
      ensures db.dbType == dbType && db.connectString == connectString
    {
      this.url, this.canRead, this.canWrite, this.pool, isOpen := url, canRead, canWrite, pool, false;
      db := new Database(dbType, connectString);
    }

    function Key(): CacheKey {
      CacheKey(db.dbType, db.connectString)
    }

    function TheStore(): Store
      requires Key() in pool.databases
    {
      pool.databases[Key()]
    }

    function Tables(): Tables
      requires Key() in pool.databases
      reads TheStore()
    {
      TheStore().tables
    }

    /** Between calls; an open entry object has a node and the kind `entry`. */
    ghost predicate Valid()
      reads this, db, pool, if Key() in pool.databases then {TheStore()} else {}
    {
      && pool.Valid() && Key() in pool.databases && Base(Tables())
      && db.connection == null
      && (isOpen ==> 1 <= db.node < Tables().next && db.kind == Entry)
    }

    /** The body of the constructor. */
    method Init(create: bool, parents: bool, exclusive: bool, now: string, failures: seq<Failure>, clock: int)
        returns (r: Result<()>)
      requires Valid() && !isOpen && db.node == 0 && db.kind == Unknown && Interference(Tables(), failures)
      modifies this`isOpen, db, pool, TheStore()
      ensures Valid() && pool.held == old(pool.held)
      ensures Tables() == OpenAt(old(Tables()), true, url, create, parents, exclusive, now, failures).t
      ensures match OpenAt(old(Tables()), true, url, create, parents, exclusive, now, failures)
              case Opened(_, n) => r.Ok? && isOpen && db.AsHandle(true) == Handle(true, n, Entry)
              case NotOpened(_, e) => r == Err(e) && !isOpen
    {
      var path := PathOfUrl(url);
      if path[0] != '/' { return Err(INCORRECT_URL); }
      OpenAtKeepsBase(Tables(), true, url, create, parents, exclusive, now, failures);
      db.EnterScope(pool);
      r := InitInScope(path, create, parents, exclusive, now, failures);
      isOpen := r.Ok?;
      db.LeaveScope(pool, clock);
    }

    method InitInScope(path: string, create: bool, parents: bool, exclusive: bool, now: string, failures: seq<Failure>)
        returns (r: Result<()>)
      requires path == PathOfUrl(url) && path[0] == '/'
      requires db.Connected() && db.node == 0 && db.kind == Unknown && Interference(db.Tables(), failures)
      modifies db`node, db`kind, db.connection.store
      ensures db.Tables() == OpenAt(old(db.Tables()), true, url, create, parents, exclusive, now, failures).t
      ensures match OpenAt(old(db.Tables()), true, url, create, parents, exclusive, now, failures)
              case Opened(_, n) => r.Ok? && db.AsHandle(true) == Handle(true, n, Entry)
              case NotOpened(_, e) => r == Err(e)
    {
      ghost var t0 := db.Tables();
      if (create || parents) && exclusive {
        var exists_ := db.ExistsEntry(path, true);
        if exists_.Err? { return Err(exists_.error); }
        if exists_.value { return Err(ALREADY_EXISTS); }
      }
      if create || parents {
        var c := db.CreateEntry(path, parents, now, failures);
        if c.Threw? { return Err(c.error); }
        ExecutedKeepsBase(t0, path, 0, false, Op.CreateEntry(parents), now, failures);
      }
      var found := db.ExistsEntry(path, true);
      if found.Err? { return Err(found.error); }
      if !found.value { return Err(DOES_NOT_EXIST); }
      return Ok(());
    }

    /** What the attribute and data functions have in common: refused unless open and permitted; then one
        operation through the cached node. */
    method Call(op: Op, now: string, failures: seq<Failure>, clock: int) returns (r: Outcome)
      requires Valid() && Interference(Tables(), failures)
      requires op.SetAttribute? || op.GetAttribute? || op.RemoveAttribute? || op.Store? || op.Retrieve?
      modifies this, db, pool, TheStore()
      ensures Valid() && isOpen == old(isOpen) && pool.held == old(pool.held)
      ensures r == if !isOpen then Threw(old(Tables()), INCORRECT_STATE, db.node)
                   else if !Permitted(op, canRead, canWrite) then Threw(old(Tables()), PERMISSION_DENIED, db.node)
                   else Executed(old(Tables()), PathOfUrl(url), db.node, false, op, now, failures)
      ensures Tables() == r.t && db.AsHandle(true) == old(db.AsHandle(true))
      ensures isOpen && !canRead && (op.GetAttribute? || op.Retrieve?) ==> r.Threw? && r.error == PERMISSION_DENIED
      ensures isOpen && !canWrite && (op.SetAttribute? || op.RemoveAttribute? || op.Store?) ==>
                r.Threw? && r.error == PERMISSION_DENIED
      ensures isOpen && (if op.GetAttribute? || op.Retrieve? then canRead else canWrite) ==>
                r == Executed(old(Tables()), PathOfUrl(url), db.node, false, op, now, failures)
    {
      if !isOpen { return Threw(Tables(), INCORRECT_STATE, db.node); }
      if !Permitted(op, canRead, canWrite) { return Threw(Tables(), PERMISSION_DENIED, db.node); }
      ghost var t0 := Tables();
      ExecutedKeepsBase(t0, PathOfUrl(url), db.node, false, op, now, failures);
      db.EnterScope(pool);
      r := CallInScope(op, now, failures);
      db.LeaveScope(pool, clock);
    }

    method CallInScope(op: Op, now: string, failures: seq<Failure>) returns (r: Outcome)
      requires db.Connected() && Interference(db.Tables(), failures) && 1 <= db.node < db.Tables().next &&
               db.kind == Entry
      requires op.SetAttribute? || op.GetAttribute? || op.RemoveAttribute? || op.Store? || op.Retrieve?
      modifies db`node, db`kind, db.connection.store
      ensures r == Executed(old(db.Tables()), PathOfUrl(url), old(db.node), false, op, now, failures) &&
              db.Tables() == r.t
      ensures db.AsHandle(true) == old(db.AsHandle(true))
    {
      CachedRetries(db.Tables(), PathOfUrl(url), db.node, false, op, now, failures);
      if op.Store? || op.Retrieve? {
        r := db.Data(PathOfUrl(url), op, now, failures);
      } else {
        r := db.Attribute(PathOfUrl(url), op, now, failures);
      }
    }

    /** A single value; a vector attribute has to be fetched by GetVectorAttribute. */
    method GetAttribute(key: string, now: string, failures: seq<Failure>, clock: int) returns (r: Result<string>)
      requires Valid() && Interference(Tables(), failures)
      modifies this, db, pool, TheStore()
      ensures Valid() && isOpen == old(isOpen) && pool.held == old(pool.held)
      ensures var g := Executed(old(Tables()), PathOfUrl(url), db.node, false, Op.GetAttribute(key), now, failures);
              && r == (if !isOpen then Err(INCORRECT_STATE)
                       else if !canRead then Err(PERMISSION_DENIED)
                       else match g
                            case Threw(_, e, _) => Err(e)
                            case Done(_, _, _, answer) =>
                              if answer.Value? && !answer.isVector then Ok(answer.text) else Err(INCORRECT_STATE))
              && Tables() == if isOpen && canRead then g.t else old(Tables())
      ensures db.AsHandle(true) == old(db.AsHandle(true))
    {
      var g := Call(Op.GetAttribute(key), now, failures, clock);
      if g.Threw? { return Err(g.error); }
      AnswerIsValue(old(Tables()), PathOfUrl(url), db.node, key, now, failures);
      if g.answer.isVector { return Err(INCORRECT_STATE); }
      return Ok(g.answer.text);
    }

    /** A vector is stored as one comma-separated text. */
    method SetVectorAttribute(key: string, values: seq<string>, now: string, failures: seq<Failure>, clock: int)
        returns (r: Outcome)
      requires Valid() && Interference(Tables(), failures)
      modifies this, db, pool, TheStore()
      ensures Valid() && isOpen == old(isOpen) && pool.held == old(pool.held)
      ensures isOpen && canWrite ==>
                r == Executed(old(Tables()), PathOfUrl(url), db.node, false,
                              SetAttribute(key, Join(values, ','), true), now, failures)
      ensures !(isOpen && canWrite) ==> r.Threw? && r.t == old(Tables())
      ensures Tables() == r.t && db.AsHandle(true) == old(db.AsHandle(true))
    {
      var text := ConcatValues(values);
      r := Call(SetAttribute(key, text, true), now, failures, clock);
    }

    method GetVectorAttribute(key: string, now: string, failures: seq<Failure>, clock: int)
        returns (r: Result<seq<string>>)
      requires Valid() && Interference(Tables(), failures)
      modifies this, db, pool, TheStore()
      ensures Valid() && isOpen == old(isOpen) && pool.held == old(pool.held)
      ensures var g := Executed(old(Tables()), PathOfUrl(url), db.node, false, Op.GetAttribute(key), now, failures);
              && r == (if !isOpen then Err(INCORRECT_STATE)
                       else if !canRead then Err(PERMISSION_DENIED)
                       else match g
                            case Threw(_, e, _) => Err(e)
                            case Done(_, _, _, answer) =>
                              if answer.Value? && answer.isVector then Ok(Tokens(answer.text, ','))
                              else Err(INCORRECT_STATE))
              && Tables() == if isOpen && canRead then g.t else old(Tables())
      ensures db.AsHandle(true) == old(db.AsHandle(true))
    {
      var g := Call(Op.GetAttribute(key), now, failures, clock);
      if g.Threw? { return Err(g.error); }
      AnswerIsValue(old(Tables()), PathOfUrl(url), db.node, key, now, failures);
      if !g.answer.isVector { return Err(INCORRECT_STATE); }
      var values := TokenizeValues(g.answer.text, []);
      assert [] + Tokens(g.answer.text, ',') == Tokens(g.answer.text, ',');
      return Ok(values);
    }

    /** remove and, if that succeeds, close. */
    method Remove(recursive: bool, now: string, failures: seq<Failure>, clock: int) returns (r: Outcome)
      requires Valid() && Interference(Tables(), failures)
      modifies this, db, pool, TheStore()
      ensures Valid() && pool.held == old(pool.held)
      ensures r == if !old(isOpen) then Threw(old(Tables()), INCORRECT_STATE, old(db.node))
                   else if recursive then Threw(old(Tables()), BAD_PARAMETER, old(db.node))
                   else if !canWrite then Threw(old(Tables()), PERMISSION_DENIED, old(db.node))
                   else Executed(old(Tables()), PathOfUrl(url), old(db.node), false, Op.Remove, now, failures)
      ensures Tables() == r.t
      ensures if r.Done? then !isOpen && db.node == 0
              else isOpen == old(isOpen) && db.AsHandle(true) == old(db.AsHandle(true))
    {
      if !isOpen { return Threw(Tables(), INCORRECT_STATE, db.node); }
      if recursive { return Threw(Tables(), BAD_PARAMETER, db.node); }
      if !canWrite { return Threw(Tables(), PERMISSION_DENIED, db.node); }
      ghost var t0 := Tables();
      ExecutedKeepsBase(t0, PathOfUrl(url), db.node, false, Op.Remove, now, failures);
      CachedRetries(t0, PathOfUrl(url), db.node, false, Op.Remove, now, failures);
      db.EnterScope(pool);
      r := db.Remove(PathOfUrl(url), now, failures);
      if r.Done? {
        db.Close();
        isOpen := false;
      }
      db.LeaveScope(pool, clock);
    }

    method Close(clock: int)
      requires Valid()
      modifies this, db, pool
      ensures Valid() && !isOpen && db.node == 0 && pool.held == old(pool.held)
    {
      db.EnterScope(pool);
      isOpen := false;
      db.Close();
      db.LeaveScope(pool, clock);
    }
  }

  lemma AnswerIsValue(t: Tables, path: string, node: nat, key: string, now: string, failures: seq<Failure>)
    requires node != 0 && Executed(t, path, node, false, GetAttribute(key), now, failures).Done?
    ensures Executed(t, path, node, false, GetAttribute(key), now, failures).answer.Value?
  {
    CachedRetries(t, path, node, false, GetAttribute(key), now, failures);
    ExecutedIsLastAttempt(t, path, node, false, GetAttribute(key), now, failures);
  }

  /** Storing a vector and fetching it gives the same vector back exactly when every element is
      non-empty and free of commas. */
  lemma VectorRoundTripIff(t: Tables, n: nat, key: string, values: seq<string>, now: string)
    requires Base(t) && 1 <= n < t.next
    ensures var r := OnNode(t, n, false, SetAttribute(key, Join(values, ','), true), now);
            && r.Done?
            && var g := OnNode(r.t, n, false, GetAttribute(key), now);
               && g.Done? && g.answer.Value? && g.answer.isVector
               && (Tokens(g.answer.text, ',') == values <==> AllClean(values, ','))
  {
    GetAfterSet(t, n, false, key, Join(values, ','), true, now);
    RoundTrip(values, ',');
  }
}
