/** The path text a directory object carries, and the node its handle is on: whether one leads to the other. */
module Locations {
  import opened Growth
  import opened Operations
  import opened Schema
  import opened Text
  import opened Walk

  predicate Absolute(location: string) {
    location == "" || location[0] == '/'
  }

  /** Where a path text leads. */
  function Target(t: Tables, location: string): Place {
    Resolve(t, ROOT, Tokens(location, '/'))
  }

  /** Where a path given to an object at this location is to lead: from where the location leads, or, if it begins
      with '/', from the root. */
  function TargetFrom(t: Tables, location: string, path: string): Place {
    if path != "" && path[0] == '/' then Target(t, path)
    else
      match Target(t, location)
      case At(n) => Resolve(t, n, Tokens(path, '/'))
      case Missing => Missing
      case Stuck(e) => Stuck(e)
  }

  /** The text, normalised, spells the node's own chain of names. */
  predicate Settled(t: Tables, location: string, n: nat)
    requires Tree(t) && n in t.nodes
  {
    Normalize(Tokens(location, '/')) == PathOf(t, n)
  }

  lemma TargetIsLive(t: Tables, location: string)
    requires Tree(t)
    ensures Target(t, location).At? ==> Target(t, location).node in t.nodes && Target(t, location).node != 0
  {
    TokensAreClean(location, '/');
    if Target(t, location).At? {
      ReduceIsPathOf(t, ROOT, Tokens(location, '/'));
      var n := Target(t, location).node;
      assert RowOk(n, t.nodes[n], t.next);
    }
  }

  /** A settled text leads to the node or nowhere; any other text leads elsewhere or nowhere. */
  lemma SettledIff(t: Tables, location: string, n: nat)
    requires Tree(t) && n in t.nodes && Target(t, location).At?
    ensures Target(t, location).node in t.nodes
    ensures Target(t, location) == At(n) <==> Settled(t, location, n)
  {
    TokensAreClean(location, '/');
    ReduceIsPathOf(t, ROOT, Tokens(location, '/'));
    PathOfResolves(t, n);
    PathOfResolves(t, Target(t, location).node);
  }

  lemma {:induction false} PathStays(t: Tables, t': Tables, n: nat)
    requires Tree(t) && Tree(t') && Evolves(t, t') && n in t.nodes && n in t'.nodes
    ensures PathOf(t', n) == PathOf(t, n)
    decreases n
  {
    assert RowOk(n, t.nodes[n], t.next);
    if n != ROOT {
      assert HasParent(t, n) && HasParent(t', n);
      PathStays(t, t', t.nodes[n].parent);
    }
  }

  /** As long as the node lives nothing that happens to the tables settles or unsettles a text. */
  lemma SettledStays(t: Tables, t': Tables, location: string, n: nat)
    requires Tree(t) && Tree(t') && Evolves(t, t') && n in t.nodes && n in t'.nodes
    ensures Settled(t', location, n) <==> Settled(t, location, n)
  {
    PathStays(t, t', n);
  }

  /** A path text that led to a node keeps leading to it, or leads nowhere, as long as the node lives; it
      never leads to another one. */
  lemma LocationNeverMisleads(t: Tables, t': Tables, location: string, n: nat)
    requires Tree(t) && Tree(t') && Evolves(t, t') && n in t.nodes && n in t'.nodes && Target(t, location) == At(n)
    ensures Target(t', location).At? ==> Target(t', location) == At(n)
  {
    SettledIff(t, location, n);
    SettledStays(t, t', location, n);
    if Target(t', location).At? { SettledIff(t', location, n); }
  }

  /** /x is node 2, /a node 3, and holds the entry e. */
  function Dangling(): Tables {
    InsertNode(InsertNode(InsertNode(Initial(""), "x", ROOT, true, ""), "a", ROOT, true, ""), "e", 3, false, "")
  }

  ghost predicate HoldsXAndA(t: Tables) {
    && Tree(t) && t.next == 5 && t.nodes.Keys == {1, 2, 3, 4} && t.nodes[2] == NodeRow("x", ROOT, true)
    && t.nodes[3] == NodeRow("a", ROOT, true) && t.nodes[4] == NodeRow("e", 3, false)
  }

  lemma DanglingHolds()
    ensures HoldsXAndA(Dangling())
  {
    InitialIsTree("");
    var t1 := InsertNode(Initial(""), "x", ROOT, true, "");
    InsertKeepsTree(Initial(""), "x", ROOT, true, "");
    assert Lookup(t1, "a", ROOT) == 0;
    InsertKeepsTree(t1, "a", ROOT, true, "");
    var t2 := InsertNode(t1, "a", ROOT, true, "");
    assert Lookup(t2, "e", 3) == 0;
    InsertKeepsTree(t2, "e", 3, false, "");
  }

  lemma ThroughX()
    ensures Tokens("/x/../a", '/') == ["x", "..", "a"]
  {
    TokensOfThree("x", "..", "a");
    assert "" + "/" + "x" + "/" + ".." + "/" + "a" == "/x/../a";
  }

  lemma ThroughXToA(t: Tables)
    requires HoldsXAndA(t)
    ensures Target(t, "/x/../a") == At(3)
  {
    var toks := ["x", "..", "a"];
    ThroughX();
    assert toks[1..] == ["..", "a"] && toks[1..][1..] == ["a"] && toks[1..][1..][1..] == [];
    LookupIs(t, "x", ROOT, 2);
    LookupIs(t, "a", ROOT, 3);
    assert Resolve(t, 2, toks[1..]) == Resolve(t, ROOT, toks[1..][1..]);
  }

  /** Removing /x leaves the rest a tree. */
  lemma WithoutX(t: Tables)
    requires HoldsXAndA(t)
    ensures var t' := DeleteNode(t, 2, "");
            && Tree(t') && Evolves(t, t') && 3 in t'.nodes && Lookup(t', "e", 3) == 4 && Lookup(t', "x", ROOT) == 0
  {
    var t' := DeleteNode(t, 2, "");
    DeleteKeepsBase(t, 2, "");
    assert t'.nodes.Keys == {1, 3, 4} && t'.data == t.data && t'.next == 5;
    assert 2 !in t.data;
    forall i | i in t'.nodes ensures t'.nodes[i] == t.nodes[i] { }
    assert HasParent(t', 3) && HasParent(t', 4);
    LookupIs(t', "e", 3, 4);
    assert t'.nodes[3].name == "a";
  }

  /** It can stop leading anywhere while the node lives, when it goes through a directory that is removed. Here the
      node still holds a child, so a recursive find by an object at /x/../a gets to look for it in vain. */
  lemma LocationCanDangle(t: Tables)
    requires HoldsXAndA(t)
    ensures var t' := DeleteNode(t, 2, "");
            && Tree(t') && Evolves(t, t') && 3 in t'.nodes && Lookup(t', "e", 3) == 4
            && Target(t, "/x/../a") == At(3) && Target(t', "/x/../a") == Missing
  {
    ThroughX();
    ThroughXToA(t);
    WithoutX(t);
  }
}
