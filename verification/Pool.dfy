/** connection_cache: idle connections in a multimap ordered by type and connect string, reused or
    dropped after a minute. */
module Pool {
  import opened Connections

  // -------------------------------------------------------------------- the key order

  datatype CacheKey = CacheKey(dbType: nat, connectString: string)

  /** std::string's operator<. */
  predicate TextLess(a: string, b: string) {
    b != "" && (a == "" || a[0] < b[0] || (a[0] == b[0] && TextLess(a[1..], b[1..])))
  }

  predicate KeyLess(lhs: CacheKey, rhs: CacheKey) {
    if lhs.dbType < rhs.dbType then true
    else if lhs.dbType > rhs.dbType then false
    else TextLess(lhs.connectString, rhs.connectString)
  }

  lemma {:induction false} TextTrichotomy(a: string, b: string)
    ensures !TextLess(a, b) && !TextLess(b, a) <==> a == b
    ensures !(TextLess(a, b) && TextLess(b, a))
  {
    if a != "" && b != "" {
      TextTrichotomy(a[1..], b[1..]);
      assert a == [a[0]] + a[1..] && b == [b[0]] + b[1..];
    }
  }

  lemma {:induction false} TextTransitive(a: string, b: string, c: string)
    requires TextLess(a, b) && TextLess(b, c)
    ensures TextLess(a, c)
  {
    if a != "" && a[0] == b[0] == c[0] { TextTransitive(a[1..], b[1..], c[1..]); }
  }

  /** operator< on keys is a strict order in which only equal keys are equivalent, so that a multimap
      lookup finds connections of exactly the type and connect string asked for. */
  lemma KeyOrder(a: CacheKey, b: CacheKey, c: CacheKey)
    ensures !KeyLess(a, b) && !KeyLess(b, a) <==> a == b
    ensures !(KeyLess(a, b) && KeyLess(b, a))
    ensures KeyLess(a, b) && KeyLess(b, c) ==> KeyLess(a, c)
    ensures !KeyLess(a, b) && !KeyLess(b, c) ==> !KeyLess(a, c)
  {
    TextTrichotomy(a.connectString, b.connectString);
    TextTrichotomy(b.connectString, c.connectString);
    TextTrichotomy(a.connectString, c.connectString);
    var x, y, z := a.connectString, b.connectString, c.connectString;
    if TextLess(x, y) && TextLess(y, z) { TextTransitive(x, y, z); }
    if TextLess(y, x) && TextLess(z, y) { TextTransitive(z, y, x); }
  }

  /** The two texts agree up to place k, where a ends or has the lesser character. */
  predicate LessAt(a: string, b: string, k: nat) {
    k <= |a| && k < |b| && a[..k] == b[..k] && (k == |a| || a[k] < b[k])
  }

  lemma {:induction false} TextLessIff(a: string, b: string)
    ensures TextLess(a, b) <==> exists k: nat :: LessAt(a, b, k)
  {
    forall k: nat | LessAt(a, b, k) && k > 0 ensures a != "" && b != "" && a[0] == b[0] {
      assert a[..k][0] == a[0] && b[..k][0] == b[0];
    }
    if a != "" && b != "" && a[0] == b[0] {
      TextLessIff(a[1..], b[1..]);
      if k: nat :| LessAt(a[1..], b[1..], k) {
        assert a[..k + 1] == [a[0]] + a[1..][..k] && b[..k + 1] == [b[0]] + b[1..][..k];
        assert LessAt(a, b, k + 1);
      }
      if k: nat :| LessAt(a, b, k) {
        assert a[1..][..k - 1] == a[..k][1..] && b[1..][..k - 1] == b[..k][1..];
        assert LessAt(a[1..], b[1..], k - 1);
      }
    } else {
      if b != "" && (a == "" || a[0] < b[0]) { assert LessAt(a, b, 0); }
    }
  }

  /** Keys are ordered by type, then by connect string, character by character. */
  lemma KeyLessIff(a: CacheKey, b: CacheKey)
    ensures KeyLess(a, b) <==>
            || a.dbType < b.dbType
            || (a.dbType == b.dbType && exists k: nat :: LessAt(a.connectString, b.connectString, k))
  {
    TextLessIff(a.connectString, b.connectString);
  }

  // --------------------------------------------------------------- the contents of the pool

  const CACHE_ENTRY_TTL := 60

  datatype CacheEntry = CacheEntry(key: CacheKey, connection: Connection, created: int)

  predicate IsOld(e: CacheEntry, now: int) {
    now - e.created > CACHE_ENTRY_TTL
  }

  predicate Ordered(c: seq<CacheEntry>) {
    forall i, j | 0 <= i < j < |c| :: !KeyLess(c[j].key, c[i].key)
  }

  /** The entries that are not old, in order. */
  function Young(c: seq<CacheEntry>, now: int): seq<CacheEntry> {
    if c == [] then []
    else (if IsOld(c[0], now) then [] else [c[0]]) + Young(c[1..], now)
  }

  /** multimap::insert: after the entries with an equal key. */
  function Inserted(c: seq<CacheEntry>, e: CacheEntry): seq<CacheEntry> {
    if c == [] || KeyLess(e.key, c[0].key) then [e] + c else [c[0]] + Inserted(c[1..], e)
  }

  /** The new entry comes behind those with the same key and before the greater ones; the others keep their
      places. */
  lemma {:induction false} InsertedSplits(c: seq<CacheEntry>, e: CacheEntry) returns (k: nat)
    requires Ordered(c)
    ensures k <= |c| && Inserted(c, e) == c[..k] + [e] + c[k..]
    ensures forall i | 0 <= i < k :: !KeyLess(e.key, c[i].key)
    ensures forall i | k <= i < |c| :: KeyLess(e.key, c[i].key)
  {
    k := 0;
    if c != [] {
      if KeyLess(e.key, c[0].key) {
        forall i | 0 <= i < |c| ensures KeyLess(e.key, c[i].key) {
          KeyOrder(e.key, c[i].key, c[0].key);
          KeyOrder(c[i].key, c[0].key, c[0].key);
        }
      } else {
        var j := InsertedSplits(c[1..], e);
        k := j + 1;
        assert c[..k] == [c[0]] + c[1..][..j] && c[k..] == c[1..][j..];
        forall i | k <= i < |c| ensures KeyLess(e.key, c[i].key) { assert c[i] == c[1..][i - 1]; }
        forall i | 0 <= i < k ensures !KeyLess(e.key, c[i].key) { if i > 0 { assert c[i] == c[1..][i - 1]; } }
      }
    }
  }

  lemma {:induction false} YoungIsExact(c: seq<CacheEntry>, now: int, e: CacheEntry)
    ensures multiset(Young(c, now))[e] == if IsOld(e, now) then 0 else multiset(c)[e]
  {
    if c != [] {
      YoungIsExact(c[1..], now, e);
      assert c == [c[0]] + c[1..];
    }
  }

  lemma {:induction false} InsertedIsExact(c: seq<CacheEntry>, e: CacheEntry)
    ensures multiset(Inserted(c, e)) == multiset(c) + multiset{e}
  {
    if c != [] {
      assert c == [c[0]] + c[1..];
      if !KeyLess(e.key, c[0].key) { InsertedIsExact(c[1..], e); }
    }
  }

  lemma {:induction false} YoungKeepsOrder(c: seq<CacheEntry>, now: int)
    requires Ordered(c)
    ensures Ordered(Young(c, now))
    ensures forall e | e in Young(c, now) :: e in c
  {
    if c != [] {
      YoungKeepsOrder(c[1..], now);
      var rest := Young(c[1..], now);
      forall j | 0 <= j < |rest| ensures !KeyLess(rest[j].key, c[0].key) {
        assert rest[j] in c[1..];
      }
    }
  }

  lemma {:induction false} InsertedKeepsOrder(c: seq<CacheEntry>, e: CacheEntry)
    requires Ordered(c)
    ensures Ordered(Inserted(c, e))
    ensures forall x | x in Inserted(c, e) :: x in c || x == e
  {
    if c != [] {
      if KeyLess(e.key, c[0].key) {
        forall j | 0 <= j < |c| ensures !KeyLess(c[j].key, e.key) {
          KeyOrder(c[j].key, c[0].key, e.key);
          KeyOrder(e.key, c[0].key, c[0].key);
        }
      } else {
        InsertedKeepsOrder(c[1..], e);
        var rest := Inserted(c[1..], e);
        forall j | 0 <= j < |rest| ensures !KeyLess(rest[j].key, c[0].key) {
          assert rest[j] in rest;
        }
      }
    }
  }

  predicate Distinct(c: seq<CacheEntry>) {
    forall i, j | 0 <= i < j < |c| :: c[i].connection != c[j].connection
  }

  lemma {:induction false} YoungKeepsDistinct(c: seq<CacheEntry>, now: int)
    requires Distinct(c)
    ensures Distinct(Young(c, now))
    ensures forall e | e in Young(c, now) :: e in c
  {
    if c != [] {
      YoungKeepsDistinct(c[1..], now);
      var rest := Young(c[1..], now);
      forall j | 0 <= j < |rest| ensures rest[j].connection != c[0].connection {
        assert rest[j] in c[1..];
      }
    }
  }

  lemma {:induction false} InsertedKeepsDistinct(c: seq<CacheEntry>, e: CacheEntry)
    requires Distinct(c) && forall x | x in c :: x.connection != e.connection
    ensures Distinct(Inserted(c, e))
    ensures forall x | x in Inserted(c, e) :: x in c || x == e
  {
    if c != [] && !KeyLess(e.key, c[0].key) {
      InsertedKeepsDistinct(c[1..], e);
      var rest := Inserted(c[1..], e);
      forall j | 0 <= j < |rest| ensures rest[j].connection != c[0].connection {
        assert rest[j] in rest;
      }
    }
  }

  lemma YoungPrefix(c: seq<CacheEntry>, i: nat, now: int)
    requires i < |c| && forall j | 0 <= j < i :: !IsOld(c[j], now)
    ensures IsOld(c[i], now) ==> Young(c, now) == Young(c[..i] + c[i + 1..], now)
  {
    if IsOld(c[i], now) {
      var d := c[..i] + c[i + 1..];
      if i == 0 {
        assert d == c[1..];
      } else {
        assert d[0] == c[0] && d[1..] == c[1..][..i - 1] + c[1..][i..];
        YoungPrefix(c[1..], i - 1, now);
      }
    }
  }

  lemma NoEqualKey(c: seq<CacheEntry>, key: CacheKey, it: nat)
    requires Ordered(c) && it <= |c| && (forall i | 0 <= i < it :: KeyLess(c[i].key, key))
    requires it < |c| ==> KeyLess(key, c[it].key)
    ensures forall e | e in c :: e.key != key
  {
    forall e | e in c ensures e.key != key {
      var j :| 0 <= j < |c| && c[j] == e;
      KeyOrder(e.key, key, key);
      if it <= j { KeyOrder(c[j].key, c[it].key, key); KeyOrder(key, c[it].key, key); KeyOrder(c[it].key, key, key); }
    }
  }

  lemma TakeOut(c: seq<CacheEntry>, i: nat)
    requires Ordered(c) && Distinct(c) && i < |c|
    ensures var d := c[..i] + c[i + 1..];
            && Ordered(d) && Distinct(d)
            && (forall e | e in d :: e in c && e.connection != c[i].connection)
            && multiset(d) == multiset(c) - multiset{c[i]}
  {
    var d := c[..i] + c[i + 1..];
    assert c == c[..i] + [c[i]] + c[i + 1..];
    forall e | e in d ensures e in c && e.connection != c[i].connection {
      var j :| 0 <= j < |d| && d[j] == e;
      assert d[j] == if j < i then c[j] else c[j + 1];
    }
  }

  lemma AllYoung(c: seq<CacheEntry>, now: int)
    requires forall e | e in c :: !IsOld(e, now)
    ensures Young(c, now) == c
  {
    if c != [] {
      assert c == [c[0]] + c[1..];
      AllYoung(c[1..], now);
    }
  }

  /** The entries of c for 60 seconds from their creation, each as often as before, and one e more. */
  ghost predicate Leaves(c: seq<CacheEntry>, e: CacheEntry, now: int, d: seq<CacheEntry>) {
    forall x | x in c + [e] + d ::
      multiset(d)[x] == (if now <= x.created + 60 then multiset(c)[x] else 0) + (if x == e then 1 else 0)
  }

  /** What Release leaves: of every entry the same number of copies for 60 seconds from its creation, none later,
      and one more of the entry brought back. */
  lemma ReleaseIsExact(c: seq<CacheEntry>, e: CacheEntry, now: int, x: CacheEntry)
    ensures multiset(Inserted(Young(c, now), e))[x] ==
            (if now <= x.created + 60 then multiset(c)[x] else 0) + (if x == e then 1 else 0)
  {
    InsertedIsExact(Young(c, now), e);
    YoungIsExact(c, now, x);
  }

  lemma ReleaseLeaves(c: seq<CacheEntry>, e: CacheEntry, now: int)
    ensures Leaves(c, e, now, Inserted(Young(c, now), e))
  {
    var d := Inserted(Young(c, now), e);
    forall x | x in c + [e] + d
      ensures multiset(d)[x] == (if now <= x.created + 60 then multiset(c)[x] else 0) + (if x == e then 1 else 0)
    {
      ReleaseIsExact(c, e, now, x);
    }
  }

  // ------------------------------------------------------------------------------ the class

  /** The connection is to the database its type and connect string name. */
  predicate Fits(databases: map<CacheKey, Store>, c: Connection) {
    var key := CacheKey(c.dbType, c.connectString);
    key in databases && c.store == databases[key]
  }

  class ConnectionCache {
    var cache: seq<CacheEntry>
    /** The connections handed out by Aquire and not yet given back. */
    ghost var held: set<Connection>
    /** The databases that types and connect strings name. */
    const databases: map<CacheKey, Store>

    constructor (databases: map<CacheKey, Store>)
      ensures Valid() && cache == [] && held == {} && this.databases == databases
    {
      this.databases := databases;
      cache := [];
      held := {};
    }

    /** No connection is pooled twice, or pooled and held; each is filed under its own key. */
    ghost predicate Valid()
      reads this
    {
      && Ordered(cache) && Distinct(cache)
      && (forall e | e in cache :: e.key == CacheKey(e.connection.dbType, e.connection.connectString)
                                   && Fits(databases, e.connection) && e.connection !in held)
      && (forall c | c in held :: Fits(databases, c))
    }

    /** multimap::find: the first entry whose key is equivalent; |cache| when there is none. */
    method FindKey(key: CacheKey) returns (it: nat)
      requires Ordered(cache)
      ensures it <= |cache| && (it < |cache| ==> cache[it].key == key)
      ensures it == |cache| ==> forall e | e in cache :: e.key != key
    {
      it := 0;
      while it < |cache| && KeyLess(cache[it].key, key)
        invariant it <= |cache|
        invariant forall i | 0 <= i < it :: KeyLess(cache[i].key, key)
      {
        it := it + 1;
      }
      if it < |cache| && KeyLess(key, cache[it].key) {
        NoEqualKey(cache, key, it);
        it := |cache|;
      } else {
        if it < |cache| { KeyOrder(cache[it].key, key, key); } else { NoEqualKey(cache, key, it); }
      }
    }

    /** Hands out a pooled connection of the requested kind if there is one, else a new one; nobody
        else holds it. */
    method Aquire(dbType: nat, connectString: string) returns (db: Connection)
      requires Valid() && CacheKey(dbType, connectString) in databases
      modifies this
      ensures Valid()
      ensures db.dbType == dbType && db.connectString == connectString
      ensures db.store == databases[CacheKey(dbType, connectString)]
      ensures db !in old(held) && held == old(held) + {db}
      ensures if exists e | e in old(cache) :: e.key == CacheKey(dbType, connectString)
              then exists e | e in old(cache) :: e.connection == db &&
                  multiset(cache) == multiset(old(cache)) - multiset{e}
              else fresh(db) && cache == old(cache)
    {
      var key := CacheKey(dbType, connectString);
      var it := FindKey(key);
      if it != |cache| {
        TakeOut(cache, it);
        assert cache[it] in cache;
        db := cache[it].connection;
        cache := cache[..it] + cache[it + 1..];
        held := held + {db};
        return;
      }
      db := new Connection(dbType, connectString, databases[key]);
      held := held + {db};
    }

    /** Takes a connection back: the entries older than CACHE_ENTRY_TTL seconds go, this one comes. */
    method Release(db: Connection, now: int)
      requires Valid() && db in held
      modifies this
      ensures Valid()
      ensures held == old(held) - {db}
      ensures var e := CacheEntry(CacheKey(db.dbType, db.connectString), db, now);
              && cache == Inserted(Young(old(cache), now), e)
              && Leaves(old(cache), e, now, cache)
    {
      ghost var c0 := cache;
      var it := 0;
      while it != |cache|
        invariant 0 <= it <= |cache|
        invariant forall j | 0 <= j < it :: !IsOld(cache[j], now)
        invariant Young(cache, now) == Young(c0, now) && held == old(held)
        decreases |cache| - it
      {
        YoungPrefix(cache, it, now);
        if IsOld(cache[it], now) {
          cache := cache[..it] + cache[it + 1..];
        } else {
          it := it + 1;
        }
      }
      AllYoung(cache, now);
      YoungKeepsOrder(c0, now);
      YoungKeepsDistinct(c0, now);
      var e := CacheEntry(CacheKey(db.dbType, db.connectString), db, now);
      InsertedKeepsOrder(cache, e);
      InsertedKeepsDistinct(cache, e);
      assert forall x | x in Inserted(cache, e) :: x in c0 || x == e;
      cache := Inserted(cache, e);
      ReleaseLeaves(c0, e, now);
      held := held - {db};
    }
  }
}
