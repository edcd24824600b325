/** The class `database`: a cached node number and kind over a borrowed connection. Its BOOST_ASSERTs
    are asserted here; the node and kind after every call that Runs has an event for are the ones it gives. */
module Handles {
  import opened Connections
  import opened Errors
  import opened Operations
  import opened Pool
  import opened Retry
  import opened Runs
  import opened Schema
  import opened Walk

  class Database {
    const dbType: nat
    const connectString: string
    var connection: Connection?
    var node: nat
    var kind: Kind

    constructor (dbType: nat, connectString: string)
      ensures this.dbType == dbType && this.connectString == connectString
      ensures connection == null && node == 0 && kind == Unknown
    {
      this.dbType, this.connectString := dbType, connectString;
      connection, node, kind := null, 0, Unknown;
    }

    predicate Connected()
      reads this, if connection != null then {connection.store} else {}
    {
      connection != null && Base(connection.store.tables)
    }

    function Tables(): Tables
      requires connection != null
      reads this, connection.store
    {
      connection.store.tables
    }

    /** The handle of Runs that this object is. */
    function AsHandle(isEntry: bool): Handle
      reads this
    {
      Handle(isEntry, node, kind)
    }

    method Close()
      modifies this`node, this`kind
      ensures node == 0 && kind == Unknown
    {
      node, kind := 0, Unknown;
    }

    method ExistsEntry(path: string, throwOnError: bool) returns (r: Result<bool>)
      requires Connected() && (node != 0 ==> kind == Entry) && (node == 0 ==> kind != Directory)
      modifies this`node, this`kind, connection.store
      ensures Tables() == old(Tables())
      ensures old(node) != 0 ==> r == Ok(true) && node == old(node) && kind == old(kind)
      ensures old(node) == 0 ==>
                match FindEntry(Tables(), path, throwOnError)
                case Err(e) => r == Err(e) && node == old(node) && kind == old(kind)
                case Ok(n) => r == Ok(n != 0) && node == n && kind == if n != 0 then Entry else old(kind)
    {
      if node != 0 {
        assert kind == Entry;
        return Ok(true);
      }
      var f := connection.FindEntry(path, throwOnError);
      if f.Err? { return Err(f.error); }
      node := f.value;
      if node != 0 {
        assert kind == Unknown || kind == Entry;
        kind := Entry;
        return Ok(true);
      }
      return Ok(false);
    }

    method ExistsDirectory(path: string, throwOnError: bool) returns (r: Result<bool>)
      requires Connected() && (node != 0 ==> kind == Directory) && (node == 0 ==> kind != Entry)
      modifies this`node, this`kind, connection.store
      ensures Tables() == old(Tables())
      ensures old(node) != 0 ==> r == Ok(true) && node == old(node) && kind == old(kind)
      ensures old(node) == 0 ==>
                match FindDirectory(Tables(), path, throwOnError)
                case Err(e) => r == Err(e) && node == old(node) && kind == old(kind)
                case Ok(n) => r == Ok(n != 0) && node == n && kind == if n != 0 then Directory else old(kind)
    {
      if node != 0 {
        assert kind == Directory;
        return Ok(true);
      }
      var f := connection.FindDirectory(path, throwOnError);
      if f.Err? { return Err(f.error); }
      node := f.value;
      if node != 0 {
        assert kind == Unknown || kind == Directory;
        kind := Directory;
        return Ok(true);
      }
      return Ok(false);
    }

    /** find with force: looks the path up afresh, leaves the cached node alone and overwrites the kind. */
    method FindForced(path: string) returns (r: Result<(bool, bool)>)
      requires Connected()
      modifies this`kind, connection.store
      ensures Tables() == old(Tables())
      ensures match Walk.Find(Tables(), path, false, Look, "")
              case Thrown(e) => r == Err(e)
              case Reached(_, n, d) => if n == 0 then r.Ok? && !r.value.0 else r == Ok((true, d))
      ensures AsHandle(false) == AfterForcedFind(old(AsHandle(false)), Walk.Find(Tables(), path, false, Look, ""))
    {
      var w := connection.Find(path, false, Look, "");
      if w.Err? { return Err(w.error); }
      var (n, foundDir) := w.value;
      if n == 0 { return Ok((false, foundDir)); }
      kind := if foundDir then Directory else Entry;
      return Ok((true, foundDir));
    }

    method CreateEntry(path: string, parents: bool, now: string, failures: seq<Failure>) returns (r: Outcome)
      requires Connected() && Interference(Tables(), failures)
      modifies this`node, this`kind, connection.store
      ensures r == Executed(old(Tables()), path, old(node), false, Op.CreateEntry(parents), now, failures) &&
              Tables() == r.t
      ensures AsHandle(true) == AfterAct(old(AsHandle(true)), Op.CreateEntry(parents), r)
      ensures node == r.node && kind == if r.Done? then Entry else old(kind)
    {
      r := connection.Execute(path, node, false, Op.CreateEntry(parents), now, failures);
      node := r.node;
      if r.Done? { kind := Entry; }
    }

    method CreateDirectory(path: string, parents: bool, now: string, failures: seq<Failure>) returns (r: Outcome)
      requires Connected() && Interference(Tables(), failures)
      modifies this`node, this`kind, connection.store
      ensures r == Executed(old(Tables()), path, old(node), false, Op.CreateDirectory(parents), now, failures) &&
              Tables() == r.t
      ensures AsHandle(false) == AfterAct(old(AsHandle(false)), Op.CreateDirectory(parents), r)
      ensures node == r.node && kind == if r.Done? then Directory else old(kind)
    {
      r := connection.Execute(path, node, false, Op.CreateDirectory(parents), now, failures);
      node := r.node;
      if r.Done? { kind := Directory; }
    }

    /** remove and remove_directory forget the node they removed. */
    method Remove(path: string, now: string, failures: seq<Failure>) returns (r: Outcome)
      requires Connected() && Interference(Tables(), failures)
      modifies this`node, this`kind, connection.store
      ensures r == Executed(old(Tables()), path, old(node), false, Op.Remove, now, failures) && Tables() == r.t
      ensures AsHandle(true) == AfterAct(old(AsHandle(true)), Op.Remove, r)
      ensures if r.Done? then node == 0 && kind == Unknown else node == r.node && kind == old(kind)
    {
      r := connection.Execute(path, node, false, Op.Remove, now, failures);
      node := r.node;
      if r.Done? { node, kind := 0, Unknown; }
    }

    method RemoveDirectory(path: string, now: string, failures: seq<Failure>) returns (r: Outcome)
      requires Connected() && Interference(Tables(), failures)
      modifies this`node, this`kind, connection.store
      ensures r == Executed(old(Tables()), path, old(node), false, Op.RemoveDirectory, now, failures) && Tables() == r.t
      ensures AsHandle(false) == AfterAct(old(AsHandle(false)), Op.RemoveDirectory, r)
      ensures if r.Done? then node == 0 && kind == Unknown else node == r.node && kind == old(kind)
    {
      r := connection.Execute(path, node, false, Op.RemoveDirectory, now, failures);
      node := r.node;
      if r.Done? { node, kind := 0, Unknown; }
    }

    /** list. When it succeeds, its assertion is about the kind before the call, so callers have to provide
        it; forced, the directory is looked up by its path. entries is what the caller's vector holds. */
    method List(path: string, pattern: string -> bool, entries: seq<string>, force: bool, now: string,
                failures: seq<Failure>)
        returns (r: Outcome)
      requires Connected() && Interference(Tables(), failures)
      requires var n := if force then 0 else node;
               Executed(Tables(), path, n, false, Op.List(pattern, entries), now, failures).Done?
               ==> AssertHolds(AsHandle(false), Op.List(pattern, entries))
      modifies this`node, this`kind, connection.store
      ensures var n := if force then 0 else old(node);
              r == Executed(old(Tables()), path, n, false, Op.List(pattern, entries), now, failures)
      ensures Tables() == r.t
      ensures if force then node == old(node) && kind == if r.Done? then Directory else old(kind)
              else AsHandle(false) == AfterAct(old(AsHandle(false)), Op.List(pattern, entries), r)
    {
      var n := if force then 0 else node;
      r := connection.Execute(path, n, false, Op.List(pattern, entries), now, failures);
      if r.Done? {
        assert kind == Unknown || kind == Directory;
        kind := Directory;
        if !force && node == 0 { node := r.node; }
      }
    }

    /** set_attribute, get_attribute and remove_attribute, which differ only in the statement executed. */
    method Attribute(path: string, op: Op, now: string, failures: seq<Failure>) returns (r: Outcome)
      requires Connected() && (op.SetAttribute? || op.GetAttribute? || op.RemoveAttribute?) &&
               Interference(Tables(), failures)
      modifies this`node, this`kind, connection.store
      ensures r == Executed(old(Tables()), path, old(node), false, op, now, failures) && Tables() == r.t
      ensures AsHandle(true) == AfterAct(old(AsHandle(true)), op, r)
      ensures node == r.node
      ensures kind == if r.Done? && old(kind) == Unknown then (if r.isDir then Directory else Entry) else old(kind)
    {
      r := connection.Execute(path, node, false, op, now, failures);
      node := r.node;
      if r.Done? && kind == Unknown { kind := if r.isDir then Directory else Entry; }
    }

    /** store_data and retrieve_data. */
    method Data(path: string, op: Op, now: string, failures: seq<Failure>) returns (r: Outcome)
      requires Connected() && (op.Store? || op.Retrieve?) && Interference(Tables(), failures)
      modifies this`node, this`kind, connection.store
      ensures r == Executed(old(Tables()), path, old(node), false, op, now, failures) && Tables() == r.t
      ensures AsHandle(true) == AfterAct(old(AsHandle(true)), op, r)
      ensures node == r.node && kind == if r.Done? then Entry else old(kind)
    {
      r := connection.Execute(path, node, false, op, now, failures);
      node := r.node;
      if r.Done? { kind := Entry; }
    }

    method ChangeDirectory(path: string) returns (r: Result<bool>)
      requires Connected()
      modifies this`node, this`kind, connection.store
      ensures Tables() == old(Tables())
      ensures match FindDirectory(Tables(), path, true) case Err(e) => r == Err(e) case Ok(n) => r == Ok(n != 0)
      ensures AsHandle(false) == AfterChangeDir(old(AsHandle(false)), FindDirectory(Tables(), path, true))
      ensures if r == Ok(true) then FindDirectory(Tables(), path, true) == Ok(node) && kind == Directory
              else node == old(node) && kind == old(kind)
    {
      var f := connection.FindDirectory(path, true);
      if f.Err? { return Err(f.error); }
      if f.value != 0 {
        node, kind := f.value, Directory;
        return Ok(true);
      }
      return Ok(false);
    }

    /** database_scope: borrow a connection for one call ... */
    method EnterScope(pool: ConnectionCache)
      requires pool.Valid() && connection == null && CacheKey(dbType, connectString) in pool.databases
      modifies this`connection, pool
      ensures pool.Valid() && connection != null && connection !in old(pool.held) &&
              pool.held == old(pool.held) + {connection}
      ensures connection.store == pool.databases[CacheKey(dbType, connectString)]
    {
      var db := pool.Aquire(dbType, connectString);
      assert connection == null;
      connection := db;
    }

    /** ... and give it back. */
    method LeaveScope(pool: ConnectionCache, clock: int)
      requires pool.Valid() && connection != null && connection in pool.held
      modifies this`connection, pool
      ensures pool.Valid() && connection == null && pool.held == old(pool.held) - {old(connection)}
    {
      pool.Release(connection, clock);
      connection := null;
    }
  }
}
