/** The two recursive listings as the directory object runs them: through list and forced find calls on
    the handle, building path texts and resolving them again. */
module Recursion {
  import opened Errors
  import opened Growth
  import opened Handles
  import opened Listing
  import opened Locations
  import opened Operations
  import opened Removal
  import opened Retry
  import opened Runs
  import opened Schema
  import opened Text
  import opened Walk

  /** The path text of an entry of the directory at adname. */
  function EntryPath(adname: string, name: string): string {
    var entry := if adname == "" then "/" else adname;
    (if entry[|entry| - 1] != '/' then entry + "/" else entry) + name
  }

  function RelName(cwd: string, name: string): string {
    if cwd == "" then name else cwd + "/" + name
  }

  lemma EntryPathTokens(adname: string, name: string)
    requires Absolute(adname) && PlainName(name)
    ensures EntryPath(adname, name) != "" && EntryPath(adname, name)[0] == '/'
    ensures Tokens(EntryPath(adname, name), '/') == Tokens(adname, '/') + [name]
  {
    TokensOfOne(name, '/');
    if adname == "" {
      assert EntryPath(adname, name) == "" + ['/'] + name;
      TokensAtSeparator("", name, '/');
    } else if adname[|adname| - 1] == '/' {
      TokensAfterSlash(adname, name);
    } else {
      TokensAtSeparator(adname, name, '/');
    }
  }

  lemma TokensAfterSlash(adname: string, name: string)
    requires adname != "" && adname[|adname| - 1] == '/'
    ensures Tokens(adname + name, '/') == Tokens(adname, '/') + Tokens(name, '/')
  {
    var front := adname[..|adname| - 1];
    assert front + ['/'] + "" == front + ['/'] == adname;
    TokensAtSeparator(front, "", '/');
    TokensAtSeparator(front, name, '/');
  }

  /** Looking up the built path finds the entry of that name in the directory the path text leads to; if
      there is none, or the text leads nowhere, it finds nothing, or throws where walking the text is stuck. */
  lemma EntryIsFound(t: Tables, adname: string, name: string)
    requires Base(t) && Absolute(adname) && PlainName(name)
    ensures var w, p := Find(t, EntryPath(adname, name), false, Look, ""), Target(t, adname);
            if p.At? && Lookup(t, name, p.node) != 0
            then w == Reached(t, Lookup(t, name, p.node), t.nodes[Lookup(t, name, p.node)].isDir)
            else w == if p.Stuck? then Thrown(p.error) else Reached(t, 0, false)
  {
    var toks := Tokens(adname, '/');
    EntryPathTokens(adname, name);
    TokensAreClean(EntryPath(adname, name), '/');
    LookIsResolve(t, ROOT, false, toks + [name], "");
    if Target(t, adname).At? {
      ResolvedIsPositive(t, ROOT, toks);
      ResolveName(t, toks, Target(t, adname).node, name);
      if Lookup(t, name, Target(t, adname).node) != 0 {
        LookupSound(t, name, Target(t, adname).node);
        assert toks + [name] + [] == toks + [name];
        FlagOfHead(t, ROOT, false, toks + [name], []);
      }
    } else {
      ResolveConcat(t, ROOT, toks, [name]);
    }
  }

  lemma FindDirectoryOf(t: Tables, path: string, k: nat)
    requires Find(t, path, false, Look, "") == Reached(t, k, true) && k != 0
    ensures FindDirectory(t, path, true) == Ok(k)
  {
  }

  /** The error of a listing that misses a child: "Database inconsistency", unless the path cannot be walked. */
  function MissError(t: Tables, location: string): ErrorCode {
    var p := Target(t, location);
    if p.Stuck? then p.error else NO_SUCCESS
  }

  // ------------------------------------------------------- the children a path text leads to

  predicate AllThere(t: Tables, place: nat, names: seq<string>) {
    forall x | x in names :: Lookup(t, x, place) != 0
  }

  /** The names before the first that is missing in place. */
  function FoundPrefix(t: Tables, place: nat, names: seq<string>): (r: seq<string>)
    ensures r <= names && AllThere(t, place, r)
    ensures r == names <==> AllThere(t, place, names)
  {
    if names == [] || Lookup(t, names[0], place) == 0 then []
    else
      var rest := FoundPrefix(t, place, names[1..]);
      assert names == [names[0]] + names[1..];
      [names[0]] + rest
  }

  /** The same where a path text leads; nothing is found if it leads nowhere. */
  function FoundThere(t: Tables, location: string, names: seq<string>): seq<string> {
    if Target(t, location).At? then FoundPrefix(t, Target(t, location).node, names) else []
  }

  lemma {:induction false} FoundPrefixIs(t: Tables, place: nat, names: seq<string>, i: nat)
    requires i <= |names| && AllThere(t, place, names[..i]) && (i < |names| ==> Lookup(t, names[i], place) == 0)
    ensures FoundPrefix(t, place, names) == names[..i]
    decreases |names|
  {
    if i > 0 {
      assert names[0] in names[..i];
      assert names[1..][..i - 1] == names[..i][1..];
      forall x | x in names[1..][..i - 1] ensures Lookup(t, x, place) != 0 { assert x in names[..i]; }
      FoundPrefixIs(t, place, names[1..], i - 1);
    }
  }

  /** The children of these names. */
  function FoundIn(t: Tables, place: nat, names: seq<string>): (r: seq<nat>)
    ensures |r| == |names| && forall i | 0 <= i < |names| :: r[i] == Lookup(t, names[i], place)
  {
    seq(|names|, i requires 0 <= i < |names| => Lookup(t, names[i], place))
  }

  predicate Listed(names: seq<string>) {
    AllPlain(names) && forall i, j | 0 <= i < j < |names| :: names[i] != names[j]
  }

  lemma FoundInAreChildren(t: Tables, place: nat, names: seq<string>)
    requires Base(t) && place != 0 && AllThere(t, place, names) && Listed(names)
    ensures ChildrenOf(t, place, FoundIn(t, place, names))
  {
    var kids := FoundIn(t, place, names);
    forall i | 0 <= i < |kids|
      ensures kids[i] in t.nodes && t.nodes[kids[i]].parent == place && t.nodes[kids[i]].name == names[i] &&
              place < kids[i] < t.next
    {
      assert names[i] in names;
      LookupSound(t, names[i], place);
    }
  }

  lemma NamesAreListed(t: Tables, dir: nat, pattern: string -> bool)
    requires Base(t) && dir != 0
    ensures Listed(MatchingNames(t, dir, pattern))
    ensures AllThere(t, dir, MatchingNames(t, dir, pattern))
    ensures FoundIn(t, dir, MatchingNames(t, dir, pattern)) == Matching(t, dir, pattern)
  {
    NamesAreExact(t, dir, pattern);
    MatchingIsBelow(t, dir, pattern);
    var kids, names := Matching(t, dir, pattern), MatchingNames(t, dir, pattern);
    forall i | 0 <= i < |kids| ensures Lookup(t, names[i], dir) == kids[i] && PlainName(names[i]) {
      assert kids[i] in kids;
      LookupIs(t, names[i], dir, kids[i]);
      LookupSound(t, names[i], dir);
    }
  }

  // -------------------------------------------------------------------- texts and results

  predicate AtOrAbove(t: Tables, x: nat, y: nat) {
    x == y || Above(t, x, y)
  }

  function CwdOf(t: Tables, top: nat, dir: nat): string
    requires AtOrAbove(t, top, dir)
  {
    if top == dir then "" else Join(Rel(t, top, dir), '/')
  }

  lemma {:induction false} AboveTransitive(t: Tables, x: nat, y: nat, z: nat)
    requires AtOrAbove(t, x, y) && Above(t, y, z)
    ensures Above(t, x, z)
    decreases z
  {
    if t.nodes[z].parent != y { AboveTransitive(t, x, y, t.nodes[z].parent); }
  }

  lemma {:induction false} JoinOneMore(a: seq<string>, x: string)
    requires a != []
    ensures Join(a + [x], '/') == Join(a, '/') + "/" + x
  {
    if |a| == 1 {
      assert (a + [x])[1..] == [x];
    } else {
      assert (a + [x])[1..] == a[1..] + [x];
      JoinOneMore(a[1..], x);
    }
  }

  /** cwd '/' name is the relative text of the child, and never empty. */
  lemma RelNameIs(t: Tables, top: nat, dir: nat, k: nat)
    requires Base(t) && top != 0 && AtOrAbove(t, top, dir) && k in t.nodes && t.nodes[k].parent == dir
    ensures Above(t, top, k) && k != top && RelName(CwdOf(t, top, dir), t.nodes[k].name) == CwdOf(t, top, k) != ""
  {
    assert RowOk(k, t.nodes[k], t.next);
    assert Above(t, dir, k);
    AboveTransitive(t, top, dir, k);
    AboveIsLess(t, top, k);
    if top != dir {
      AboveIsLess(t, top, dir);
      RelIsAbove(t, top, dir);
      RelResolves(t, top, dir);
      JoinOneMore(Rel(t, top, dir), t.nodes[k].name);
      NonEmptyJoin(Rel(t, top, dir));
    } else {
      assert Rel(t, top, k) == [t.nodes[k].name];
    }
  }

  lemma NonEmptyJoin(a: seq<string>)
    requires AllPlain(a) && a != []
    ensures Join(a, '/') != ""
  {
    assert PlainName(a[0]);
  }

  /** What a recursive listing below dir appends for these children. */
  function Reported(t: Tables, top: nat, dir: nat, kids: seq<nat>, inner: string -> bool): seq<string>
    requires Tree(t) && ChildrenOf(t, dir, kids) && AtOrAbove(t, top, dir)
  {
    OverIsBelow(t, top, dir, kids, inner);
    Texts(t, top, FoundOver(t, dir, kids, inner))
  }

  lemma OverIsBelow(t: Tables, top: nat, dir: nat, kids: seq<nat>, inner: string -> bool)
    requires Tree(t) && ChildrenOf(t, dir, kids) && AtOrAbove(t, top, dir)
    ensures forall x | x in FoundOver(t, dir, kids, inner) :: Above(t, top, x)
  {
    FoundOverIs(t, dir, kids, _ => true, inner);
    forall x | x in FoundOver(t, dir, kids, inner) ensures Above(t, top, x) {
      ChainIsRel(t, dir, _ => true, inner, x);
      AboveTransitive(t, top, dir, x);
    }
  }

  lemma TextsConcat(t: Tables, top: nat, a: seq<nat>, b: seq<nat>)
    requires (forall x | x in a :: Above(t, top, x)) && (forall x | x in b :: Above(t, top, x))
    ensures forall x | x in a + b :: Above(t, top, x)
    ensures Texts(t, top, a + b) == Texts(t, top, a) + Texts(t, top, b)
  {
  }

  function ReportedBelow(t: Tables, top: nat, dir: nat, pattern: string -> bool): seq<string>
    requires Tree(t) && AtOrAbove(t, top, dir)
  {
    MatchingIsBelow(t, dir, pattern);
    Reported(t, top, dir, Matching(t, dir, pattern), pattern)
  }

  /** One more child at the end. */
  lemma {:induction false} FoundOverSnoc(t: Tables, dir: nat, kids: seq<nat>, k: nat, inner: string -> bool)
    requires Tree(t) && ChildrenOf(t, dir, kids) && ChildrenOf(t, dir, kids + [k])
    requires k in t.nodes && dir < k < t.next
    ensures FoundOver(t, dir, kids + [k], inner) ==
            FoundOver(t, dir, kids, inner) + ((if t.nodes[k].isDir then FoundFrom(t, k, inner, inner) else []) + [k])
    decreases |kids|
  {
    var more := kids + [k];
    ChildrenRest(t, dir, more);
    if kids == [] {
      assert more[1..] == [] && more[0] == k;
    } else {
      assert more[1..] == kids[1..] + [k] && more[0] == kids[0];
      ChildrenRest(t, dir, kids);
      assert kids[0] in kids;
      FoundOverSnoc(t, dir, kids[1..], k, inner);
      var head := (if t.nodes[kids[0]].isDir then FoundFrom(t, kids[0], inner, inner) else []) + [kids[0]];
      Associative(head, FoundOver(t, dir, kids[1..], inner),
                  (if t.nodes[k].isDir then FoundFrom(t, k, inner, inner) else []) + [k]);
    }
  }

  lemma ReportedSnoc(t: Tables, top: nat, dir: nat, kids: seq<nat>, k: nat, inner: string -> bool)
    requires Tree(t) && top != 0 && ChildrenOf(t, dir, kids) && ChildrenOf(t, dir, kids + [k]) && AtOrAbove(t, top, dir)
    requires k in t.nodes && t.nodes[k].parent == dir && dir < k < t.next && top != k && AtOrAbove(t, top, k)
    ensures Reported(t, top, dir, kids + [k], inner) == Reported(t, top, dir, kids, inner) + Visited(t, top, k, inner)
  {
    var part := if t.nodes[k].isDir then FoundFrom(t, k, inner, inner) else [];
    FoundOverSnoc(t, dir, kids, k, inner);
    RelNameIs(t, top, dir, k);
    MatchingIsBelow(t, k, inner);
    OverIsBelow(t, top, k, Matching(t, k, inner), inner);
    OverIsBelow(t, top, dir, kids, inner);
    TextsConcat(t, top, part, [k]);
    TextsConcat(t, top, FoundOver(t, dir, kids, inner), part + [k]);
    assert Texts(t, top, [k]) == [CwdOf(t, top, k)];
  }

  /** What both listings need of the handle and the path text. */
  predicate Ready(db: Database, adname: string)
    reads db, if db.connection != null then {db.connection.store} else {}
  {
    db.Connected() && Tree(db.Tables()) && !db.kind.Entry? && Absolute(adname)
  }

  /** place is where the path text leads, if it leads anywhere; cwd is its text relative to top. */
  predicate Placed(t: Tables, adname: string, cwd: string, top: nat, place: nat) {
    Target(t, adname).At? ==>
      && Target(t, adname) == At(place) && place in t.nodes && top in t.nodes
      && AtOrAbove(t, top, place) && cwd == CwdOf(t, top, place)
  }

  /** What visiting child k adds to a listing. */
  function Visited(t: Tables, top: nat, k: nat, inner: string -> bool): seq<string>
    requires Tree(t) && k in t.nodes && top != k && AtOrAbove(t, top, k)
  {
    (if t.nodes[k].isDir then ReportedBelow(t, top, k, inner) else []) + [CwdOf(t, top, k)]
  }

  lemma VisitedIs(t: Tables, top: nat, k: nat, inner: string -> bool, ret0: seq<string>, ret: seq<string>)
    requires Tree(t) && k in t.nodes && top != k && AtOrAbove(t, top, k)
    requires ret == if t.nodes[k].isDir then ret0 + ReportedBelow(t, top, k, inner) else ret0
    ensures ret + [CwdOf(t, top, k)] == ret0 + Visited(t, top, k, inner)
  {
    if t.nodes[k].isDir {
      Associative(ret0, ReportedBelow(t, top, k, inner), [CwdOf(t, top, k)]);
    } else {
      assert [] + [CwdOf(t, top, k)] == [CwdOf(t, top, k)];
    }
  }

  /** The child of the given name, seen from top. */
  lemma ChildPlaced(t: Tables, adname: string, cwd: string, top: nat, place: nat, name: string)
    requires Tree(t) && Absolute(adname) && PlainName(name) && Placed(t, adname, cwd, top, place)
    requires Target(t, adname).At? && Lookup(t, name, place) != 0
    ensures var k := Lookup(t, name, place);
            && k in t.nodes && t.nodes[k].parent == place && place < k < t.next && top != 0
            && Above(t, top, k) && k != top && RelName(cwd, name) == CwdOf(t, top, k) != ""
            && Placed(t, EntryPath(adname, name), RelName(cwd, name), top, k) && Absolute(EntryPath(adname, name))
            && Target(t, EntryPath(adname, name)) == At(k)
  {
    var k := Lookup(t, name, place);
    assert RowOk(place, t.nodes[place], t.next) && RowOk(top, t.nodes[top], t.next);
    LookupSound(t, name, place);
    RelNameIs(t, top, place, k);
    EntryPathTokens(adname, name);
    ResolveName(t, Tokens(adname, '/'), place, name);
  }

  /** The body of both loops: look the built path up again, list below it if it is a directory, report it. */
  method Visit(db: Database, adname: string, name: string, inner: string -> bool, cwd: string, ret0: seq<string>,
               now: string, ghost top: nat, ghost place: nat)
      returns (r: Result<seq<string>>)
    requires db.Connected() && Tree(db.Tables()) && Absolute(adname) && PlainName(name)
    requires Placed(db.Tables(), adname, cwd, top, place)
    modifies db`node, db`kind, db.connection.store
    ensures db.Tables() == old(db.Tables()) && db.node == old(db.node)
    ensures r.Ok? <==> Target(db.Tables(), adname).At? && Lookup(db.Tables(), name, place) != 0
    ensures r.Ok? ==>
              var t, k := db.Tables(), Lookup(db.Tables(), name, place);
              && k in t.nodes && top != k && AtOrAbove(t, top, k)
              && r.value == ret0 + Visited(t, top, k, inner) && db.kind == KindOfChild(t, k, inner)
    ensures r.Err? ==> r.error == MissError(db.Tables(), adname) && db.kind == old(db.kind)
    decreases db.Tables().next - place, 0
  {
    ghost var t := db.Tables();
    EntryIsFound(t, adname, name);
    var entry := EntryPath(adname, name);
    var f := db.FindForced(entry);
    if f.Err? { return Err(f.error); }
    if !f.value.0 { return Err(NO_SUCCESS); }
    var isDir := f.value.1;
    var relEntry := RelName(cwd, name);
    var ret := ret0;
    ChildPlaced(t, adname, cwd, top, place, name);
    ghost var k := Lookup(t, name, place);
    if isDir {
      FindDirectoryOf(t, entry, k);
      SelfVia(t, top, k, inner);
      var below := FindRecursive(db, entry, inner, relEntry, ret, now, top, k, k);
      ret := below.value;
    }
    VisitedIs(t, top, k, inner, ret0, ret);
    return Ok(ret + [relEntry]);
  }

  /** What a loop over these names has reported. */
  predicate SoFar(t: Tables, top: nat, place: nat, names: seq<string>, inner: string -> bool, ret0: seq<string>,
                  ret: seq<string>) {
    && Tree(t) && place != 0 && AtOrAbove(t, top, place) && Listed(names) && AllThere(t, place, names)
    && ChildrenOf(t, place, FoundIn(t, place, names))
    && ret == ret0 + Reported(t, top, place, FoundIn(t, place, names), inner)
  }

  lemma SoFarStart(t: Tables, top: nat, place: nat, inner: string -> bool, ret0: seq<string>)
    requires Tree(t) && place != 0 && AtOrAbove(t, top, place)
    ensures SoFar(t, top, place, [], inner, ret0, ret0)
  {
    assert FoundIn(t, place, []) == [];
    assert ret0 + [] == ret0;
  }

  lemma SoFarTurn(t: Tables, top: nat, place: nat, names: seq<string>, name: string, more: seq<string>,
                  inner: string -> bool, ret0: seq<string>, ret: seq<string>, written: seq<string>)
    requires SoFar(t, top, place, names, inner, ret0, ret) && more == names + [name] && Listed(more)
    requires Lookup(t, name, place) != 0 && top != 0
    requires var k := Lookup(t, name, place);
             k in t.nodes && top != k && AtOrAbove(t, top, k) && written == ret + Visited(t, top, k, inner)
    ensures SoFar(t, top, place, more, inner, ret0, written)
  {
    var k, kids := Lookup(t, name, place), FoundIn(t, place, names);
    assert AllThere(t, place, more);
    FoundInAreChildren(t, place, more);
    assert FoundIn(t, place, more) == kids + [k];
    ReportedSnoc(t, top, place, kids, k, inner);
    Associative(ret0, Reported(t, top, place, kids, inner), Visited(t, top, k, inner));
  }

  lemma PrefixIsListed(names: seq<string>, i: nat, j: nat)
    requires Listed(names) && i < |names| && j == i + 1
    ensures names[..j] == names[..i] + [names[i]] && Listed(names[..i]) && Listed(names[..j]) && PlainName(names[i])
  {
    assert names[i] in names;
  }

  /** The loop of both listings over the names that list returned. */
  method VisitAll(db: Database, adname: string, entries: seq<string>, inner: string -> bool, cwd: string,
                  ret0: seq<string>, now: string, ghost top: nat, ghost place: nat)
      returns (r: Result<seq<string>>)
    requires Ready(db, adname) && db.kind == Directory && Listed(entries)
    requires Placed(db.Tables(), adname, cwd, top, place)
    modifies db`node, db`kind, db.connection.store
    ensures db.Tables() == old(db.Tables()) && db.node == old(db.node)
    ensures r.Ok? <==> entries == [] || (Target(db.Tables(), adname).At? && AllThere(db.Tables(), place, entries))
    ensures r.Ok? && Target(db.Tables(), adname).At? ==> SoFar(db.Tables(), top, place, entries, inner, ret0, r.value)
    ensures r.Ok? && !Target(db.Tables(), adname).At? ==> r.value == ret0
    ensures r.Err? ==> r.error == MissError(db.Tables(), adname)
    ensures db.kind == KindAfter(db.Tables(), place, FoundThere(db.Tables(), adname, entries), inner)
    decreases db.Tables().next - place, 1
  {
    ghost var t := db.Tables();
    if Target(t, adname).At? {
      assert RowOk(place, t.nodes[place], t.next) && RowOk(top, t.nodes[top], t.next);
      SoFarStart(t, top, place, inner, ret0);
    }
    var ret := ret0;
    var it := 0;
    while it != |entries|
      invariant 0 <= it <= |entries|
      invariant db.Connected() && db.Tables() == t && db.node == old(db.node)
      invariant it != 0 ==> Target(t, adname).At?
      invariant Target(t, adname).At? ==> SoFar(t, top, place, entries[..it], inner, ret0, ret)
      invariant it == 0 ==> ret == ret0
      invariant db.kind == KindAfter(t, place, entries[..it], inner)
    {
      ghost var here, was := it, ret;
      PrefixIsListed(entries, it, it + 1);
      var v := Visit(db, adname, entries[it], inner, cwd, ret, now, top, place);
      if v.Err? {
        assert entries[it] in entries;
        if Target(t, adname).At? { FoundPrefixIs(t, place, entries, it); }
        return v;
      }
      ret := v.value;
      it := it + 1;
      SoFarTurn(t, top, place, entries[..here], entries[here], entries[..it], inner, ret0, was, ret);
    }
    assert entries[..it] == entries;
    if Target(t, adname).At? { FoundPrefixIs(t, place, entries, it); }
    return Ok(ret);
  }

  /** The handle's kind after visiting these names. */
  function KindAfter(t: Tables, place: nat, names: seq<string>, inner: string -> bool): Kind
    requires Base(t)
  {
    if names == [] then Directory else KindOfChild(t, Lookup(t, names[|names| - 1], place), inner)
  }

  function KindOfChild(t: Tables, k: nat, inner: string -> bool): Kind
    requires Base(t)
  {
    if k in t.nodes && t.nodes[k].isDir then LastKind(t, k, inner, inner) else Entry
  }

  /** The child that the last of these names has in place, if there is one, is an entry or a directory from which
      an entry is reached by going to the youngest match every time. */
  predicate EndsInLeaf(t: Tables, place: nat, names: seq<string>, inner: string -> bool) {
    && names != []
    && var k := Lookup(t, names[|names| - 1], place);
       k in t.nodes && (t.nodes[k].isDir ==> LeadsToLeaf(t, k, inner, inner))
  }

  lemma KindAfterIff(t: Tables, place: nat, names: seq<string>, inner: string -> bool)
    requires Tree(t) && place != 0 && AllThere(t, place, names)
    ensures KindAfter(t, place, names, inner) == Entry <==> EndsInLeaf(t, place, names, inner)
  {
    if names != [] {
      var name := names[|names| - 1];
      assert name in names;
      LookupSound(t, name, place);
      LastKindIff(t, Lookup(t, name, place), inner, inner);
    }
  }

  lemma LastKindIs(t: Tables, dir: nat, first: string -> bool, inner: string -> bool)
    requires Base(t) && dir != 0
    ensures KindAfter(t, dir, MatchingNames(t, dir, first), inner) == LastKind(t, dir, first, inner)
  {
    var kids, names := Matching(t, dir, first), MatchingNames(t, dir, first);
    MatchingIsBelow(t, dir, first);
    NamesAreListed(t, dir, first);
    if kids != [] {
      assert kids[|kids| - 1] in kids;
      assert FoundIn(t, dir, names)[|names| - 1] == kids[|kids| - 1];
    }
  }

  /** What list answers for the directory dir, through its number or through a path that leads there. */
  lemma ListAnswers(t: Tables, adname: string, n: nat, dir: nat, pattern: string -> bool, now: string)
    requires Base(t) && dir != 0
    requires n == dir || (n == 0 && dir in t.nodes && FindDirectory(t, adname, true) == Ok(dir))
    ensures Executed(t, adname, n, false, List(pattern, []), now, []) ==
            if dir in t.nodes then Done(t, dir, false, Names(MatchingNames(t, dir, pattern)))
            else Threw(t, BAD_PARAMETER, dir)
    ensures Listed(MatchingNames(t, dir, pattern))
  {
    NamesAreListed(t, dir, pattern);
    var names := MatchingNames(t, dir, pattern);
    assert [] + names == names;
  }

  /** What a recursive listing of dir reports when the path text leads to place. */
  function ReportedVia(t: Tables, top: nat, dir: nat, place: nat, first: string -> bool,
                       inner: string -> bool): seq<string>
    requires Tree(t) && dir != 0 && place != 0 && AtOrAbove(t, top, place)
  {
    var names := MatchingNames(t, dir, first);
    NamesAreListed(t, dir, first);
    if !AllThere(t, place, names) then []
    else
      FoundInAreChildren(t, place, names);
      Reported(t, top, place, FoundIn(t, place, names), inner)
  }

  lemma SelfVia(t: Tables, top: nat, dir: nat, pattern: string -> bool)
    requires Tree(t) && dir != 0 && AtOrAbove(t, top, dir)
    ensures AllThere(t, dir, MatchingNames(t, dir, pattern))
    ensures ReportedVia(t, top, dir, dir, pattern, pattern) == ReportedBelow(t, top, dir, pattern)
    ensures KindAfter(t, dir, FoundPrefix(t, dir, MatchingNames(t, dir, pattern)), pattern) ==
            LastKind(t, dir, pattern, pattern)
  {
    NamesAreListed(t, dir, pattern);
    LastKindIs(t, dir, pattern, pattern);
  }

  /** find_recursive. dir is the directory listed, place the one that adname leads to, top the one the names
      reported are relative to. A directory that is gone is refused by list. Otherwise the listing succeeds
      exactly if nothing matches, or every matching child's name is also found in place. The kind it leaves in
      the handle, if it fails as well, is that of the last child found. */
  method FindRecursive(db: Database, adname: string, pattern: string -> bool, cwd: string, ret0: seq<string>,
                       now: string, ghost top: nat, ghost dir: nat, ghost place: nat)
      returns (r: Result<seq<string>>)
    requires Ready(db, adname) && dir != 0 && Placed(db.Tables(), adname, cwd, top, place)
    requires if cwd == "" then db.node == dir
             else dir in db.Tables().nodes && FindDirectory(db.Tables(), adname, true) == Ok(dir)
    modifies db`node, db`kind, db.connection.store
    ensures db.Tables() == old(db.Tables()) && db.node == old(db.node)
    ensures dir !in db.Tables().nodes ==> r == Err(BAD_PARAMETER) && db.kind == old(db.kind)
    ensures var t, names := db.Tables(), MatchingNames(db.Tables(), dir, pattern);
            && (dir in t.nodes ==> (r.Ok? <==> names == [] || (Target(t, adname).At? && AllThere(t, place, names))))
            && (r.Ok? && Target(t, adname).At? ==>
                  place != 0 && r.value == ret0 + ReportedVia(t, top, dir, place, pattern, pattern))
            && (r.Ok? && !Target(t, adname).At? ==> r.value == ret0)
            && (dir in t.nodes ==> db.kind == KindAfter(t, place, FoundThere(t, adname, names), pattern))
            && (dir in t.nodes && r.Err? ==> r.error == MissError(t, adname))
    decreases db.Tables().next - place, 2
  {
    ghost var t := db.Tables();
    ListAnswers(t, adname, if cwd != "" then 0 else db.node, dir, pattern, now);
    var l := db.List(adname, pattern, [], cwd != "", now, []);
    if l.Threw? { return Err(l.error); }
    r := VisitAll(db, adname, l.answer.names, pattern, cwd, ret0, now, top, place);
  }

  /** list_recursive: the pattern picks among the entries of the directory itself, everything below the
      picked directories is reported (`any` is the match with the regular expression ".*"). */
  method ListRecursive(db: Database, adname: string, pattern: string -> bool, any: string -> bool, now: string,
                       ghost place: nat)
      returns (r: Result<seq<string>>)
    requires Ready(db, adname) && db.node != 0
    requires Target(db.Tables(), adname).At? ==> Target(db.Tables(), adname) == At(place) && place in db.Tables().nodes
    modifies db`node, db`kind, db.connection.store
    ensures db.Tables() == old(db.Tables()) && db.node == old(db.node)
    ensures db.node !in db.Tables().nodes ==> r == Err(BAD_PARAMETER) && db.kind == old(db.kind)
    ensures var t, names := db.Tables(), MatchingNames(db.Tables(), db.node, pattern);
            && (db.node in t.nodes ==> (r.Ok? <==> names == [] || (Target(t, adname).At? && AllThere(t, place, names))))
            && (r.Ok? && Target(t, adname).At? ==> place != 0 && r.value == ReportVia(t, db.node, place, pattern, any))
            && (r.Ok? && !Target(t, adname).At? ==> r.value == [])
            && (db.node in t.nodes ==> db.kind == KindAfter(t, place, FoundThere(t, adname, names), any))
            && (db.node in t.nodes && r.Err? ==> r.error == MissError(t, adname))
  {
    ghost var t := db.Tables();
    ListAnswers(t, adname, db.node, db.node, pattern, now);
    var l := db.List(adname, pattern, [], false, now, []);
    if l.Threw? { return Err(l.error); }
    r := VisitAll(db, adname, l.answer.names, any, "", [], now, place, place);
    if r.Ok? && Target(t, adname).At? {
      assert RowOk(place, t.nodes[place], t.next);
      EmptyFirst(ReportVia(t, db.node, place, pattern, any));
    }
  }

  lemma EmptyFirst(r: seq<string>)
    ensures [] + r == r
  {
  }

  // ------------------------------------------------------------------- what a listing reports

  /** The listing of node n through a path text that leads to m. */
  function ReportVia(t: Tables, n: nat, m: nat, first: string -> bool, inner: string -> bool): seq<string>
    requires Tree(t) && n != 0 && m != 0
  {
    ReportedVia(t, m, n, m, first, inner)
  }

  /** A text that leads to the node itself gives its report, without fail. */
  lemma ViaSelf(t: Tables, n: nat, first: string -> bool, inner: string -> bool)
    requires Tree(t) && n != 0
    ensures AllThere(t, n, MatchingNames(t, n, first))
    ensures ReportVia(t, n, n, first, inner) == Report(t, n, first, inner)
    ensures KindAfter(t, n, FoundPrefix(t, n, MatchingNames(t, n, first)), inner) == LastKind(t, n, first, inner)
  {
    NamesAreListed(t, n, first);
    FoundIsBelow(t, n, first, inner);
    LastKindIs(t, n, first, inner);
  }

  /** The nodes such a listing visits: the matching chains below m whose first name is that of a child of n. */
  lemma ViaVisits(t: Tables, n: nat, m: nat, first: string -> bool, inner: string -> bool) returns (ids: seq<nat>)
    requires Tree(t) && n in t.nodes && m in t.nodes && m != 0 && n != 0 && AllThere(t, m, MatchingNames(t, n, first))
    ensures forall x :: x in ids <==>
            Above(t, m, x) && NamesMatch(Rel(t, m, x), first, inner) && Lookup(t, Rel(t, m, x)[0], n) != 0
    ensures ReportVia(t, n, m, first, inner) == Texts(t, m, ids)
  {
    var names := MatchingNames(t, n, first);
    var kids := FoundIn(t, m, names);
    NamesAreListed(t, n, first);
    FoundInAreChildren(t, m, names);
    NamesAreExact(t, n, first);
    forall k | k in kids ensures first(t.nodes[k].name) {
      var i :| 0 <= i < |kids| && kids[i] == k;
      assert names[i] in names;
      LookupSound(t, names[i], m);
    }
    FoundOverIs(t, m, kids, first, inner);
    OverIsBelow(t, m, m, kids, inner);
    ids := FoundOver(t, m, kids, inner);
    forall x
      ensures x in ids <==>
              Above(t, m, x) && NamesMatch(Rel(t, m, x), first, inner) && Lookup(t, Rel(t, m, x)[0], n) != 0
    {
      ChainIsRel(t, m, first, inner, x);
      if Above(t, m, x) {
        BranchIsFirst(t, m, x);
        KidsAreNamed(t, m, names, Branch(t.nodes, m, x));
      }
    }
  }

  predicate ViaPath(t: Tables, n: nat, m: nat, first: string -> bool, inner: string -> bool, p: seq<string>) {
    MatchingPath(t, m, first, inner, p) && Lookup(t, p[0], n) != 0
  }

  lemma ViaHasPath(t: Tables, n: nat, m: nat, first: string -> bool, inner: string -> bool, s: string)
      returns (p: seq<string>)
    requires Tree(t) && n in t.nodes && m in t.nodes && m != 0 && n != 0 && AllThere(t, m, MatchingNames(t, n, first))
    requires s in ReportVia(t, n, m, first, inner)
    ensures ViaPath(t, n, m, first, inner, p) && s == Join(p, '/')
  {
    var ids := ViaVisits(t, n, m, first, inner);
    var r := Texts(t, m, ids);
    var i :| 0 <= i < |r| && r[i] == s;
    assert ids[i] in ids;
    RelResolves(t, m, ids[i]);
    p := Rel(t, m, ids[i]);
  }

  lemma PathIsVia(t: Tables, n: nat, m: nat, first: string -> bool, inner: string -> bool, p: seq<string>)
    requires Tree(t) && n in t.nodes && m in t.nodes && m != 0 && n != 0 && AllThere(t, m, MatchingNames(t, n, first))
    requires ViaPath(t, n, m, first, inner, p)
    ensures Join(p, '/') in ReportVia(t, n, m, first, inner)
  {
    var ids := ViaVisits(t, n, m, first, inner);
    ResolvesToRel(t, m, p);
    var i :| 0 <= i < |ids| && ids[i] == Resolve(t, m, p).node;
    assert Texts(t, m, ids)[i] == Join(p, '/');
  }

  /** What the listing reports when the text leads to m: the matching paths below m that start with the
      name of a child of n. */
  lemma ViaIs(t: Tables, n: nat, m: nat, first: string -> bool, inner: string -> bool, s: string)
    requires Tree(t) && n in t.nodes && m in t.nodes && m != 0 && n != 0 && AllThere(t, m, MatchingNames(t, n, first))
    ensures s in ReportVia(t, n, m, first, inner) <==>
            exists p :: ViaPath(t, n, m, first, inner, p) && s == Join(p, '/')
  {
    if s in ReportVia(t, n, m, first, inner) { var p := ViaHasPath(t, n, m, first, inner, s); }
    if p :| ViaPath(t, n, m, first, inner, p) && s == Join(p, '/') { PathIsVia(t, n, m, first, inner, p); }
  }

  lemma KidsAreNamed(t: Tables, m: nat, names: seq<string>, k: nat)
    requires Base(t) && m != 0 && AllThere(t, m, names) && k in t.nodes && t.nodes[k].parent == m
    ensures k in FoundIn(t, m, names) <==> t.nodes[k].name in names
  {
    var kids := FoundIn(t, m, names);
    if k in kids {
      var i :| 0 <= i < |kids| && kids[i] == k;
      assert names[i] in names;
      LookupSound(t, names[i], m);
    }
    if t.nodes[k].name in names {
      var i :| 0 <= i < |names| && names[i] == t.nodes[k].name;
      LookupIs(t, names[i], m, k);
      assert kids[i] == k;
    }
  }

  lemma {:induction false} BranchIsFirst(t: Tables, m: nat, x: nat)
    requires Base(t) && Above(t, m, x)
    ensures var b := Branch(t.nodes, m, x);
            b in t.nodes && t.nodes[b].parent == m && t.nodes[b].name == Rel(t, m, x)[0]
    decreases x
  {
    if t.nodes[x].parent != m { BranchIsFirst(t, m, t.nodes[x].parent); }
  }

  /** A listing through a text that leads to m is about node n exactly if, below every name of a matching
      child of n, the two nodes have the same matching paths. */
  lemma ViaRightIff(t: Tables, n: nat, m: nat, first: string -> bool, inner: string -> bool)
    requires Tree(t) && n in t.nodes && m in t.nodes && n != 0 && m != 0 && AllThere(t, m, MatchingNames(t, n, first))
    ensures (forall s :: s in ReportVia(t, n, m, first, inner) <==> s in Report(t, n, first, inner)) <==>
            (forall p | AllPlain(p) && NamesMatch(p, first, inner) && Lookup(t, p[0], n) != 0 ::
               Resolve(t, n, p).At? <==> Resolve(t, m, p).At?)
  {
    if forall s :: s in ReportVia(t, n, m, first, inner) <==> s in Report(t, n, first, inner) {
      forall p | AllPlain(p) && NamesMatch(p, first, inner) && Lookup(t, p[0], n) != 0
        ensures Resolve(t, n, p).At? <==> Resolve(t, m, p).At?
      {
        PathReportedIff(t, n, m, first, inner, p);
        assert Join(p, '/') in ReportVia(t, n, m, first, inner) <==> Join(p, '/') in Report(t, n, first, inner);
      }
    }
    if forall p | AllPlain(p) && NamesMatch(p, first, inner) && Lookup(t, p[0], n) != 0 ::
         Resolve(t, n, p).At? <==> Resolve(t, m, p).At?
    {
      forall s ensures s in ReportVia(t, n, m, first, inner) <==> s in Report(t, n, first, inner) {
        ViaIs(t, n, m, first, inner, s);
        ListingIsComplete(t, n, first, inner, s);
        if p :| MatchingPath(t, n, first, inner, p) && s == Join(p, '/') {
          FirstIsThere(t, n, p);
          assert ViaPath(t, n, m, first, inner, p);
        }
        if p :| ViaPath(t, n, m, first, inner, p) && s == Join(p, '/') { assert MatchingPath(t, n, first, inner, p); }
      }
    }
  }

  lemma FirstIsThere(t: Tables, n: nat, p: seq<string>)
    requires AllPlain(p) && p != [] && Resolve(t, n, p).At?
    ensures Lookup(t, p[0], n) != 0
  {
    assert PlainName(p[0]);
  }

  lemma PathReportedIff(t: Tables, n: nat, m: nat, first: string -> bool, inner: string -> bool, p: seq<string>)
    requires Tree(t) && n in t.nodes && m in t.nodes && n != 0 && m != 0 && AllThere(t, m, MatchingNames(t, n, first))
    requires AllPlain(p) && NamesMatch(p, first, inner) && Lookup(t, p[0], n) != 0
    ensures Join(p, '/') in Report(t, n, first, inner) <==> Resolve(t, n, p).At?
    ensures Join(p, '/') in ReportVia(t, n, m, first, inner) <==> Resolve(t, m, p).At?
  {
    var s := Join(p, '/');
    ViaIs(t, n, m, first, inner, s);
    ListingIsComplete(t, n, first, inner, s);
    PlainRoundTrip(p);
    if q :| MatchingPath(t, n, first, inner, q) && s == Join(q, '/') { PlainRoundTrip(q); }
    if q :| ViaPath(t, n, m, first, inner, q) && s == Join(q, '/') { PlainRoundTrip(q); }
    assert Resolve(t, m, p).At? ==> ViaPath(t, n, m, first, inner, p);
  }
}
