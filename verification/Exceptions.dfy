/** exception_list: which of the exceptions thrown by several adaptors is reported, and how messages are
    laid out. */
module Exceptions {
  import opened Errors

  /** A universally unique id. One that is not set gets a new random value when it is compared, so it equals
      no other one, set or not. */
  datatype Uuid = Unset | Set(id: nat)

  /** operator== of uuid. */
  predicate SameUuid(a: Uuid, b: Uuid) {
    a.Set? && a == b
  }

  /** The saga::object stored with an exception: of unknown type, or with the adaptor that last succeeded
      for it. */
  datatype StoredObject = UnknownObject | KnownObject(lastGood: Uuid)

  datatype Exception = Exception(error: ErrorCode, cpi: Uuid, message: string, object_: StoredObject)

  /** Counted while looking for the most significant error; `keep` is consider_adaptor_exceptions. */
  predicate Significant(x: Exception, keep: bool) {
    x.error != NOT_IMPLEMENTED && (x.error == ADAPTOR_DECLINED ==> keep)
  }

  predicate FromGood(x: Exception, lastGood: Uuid, keep: bool) {
    Significant(x, keep) && SameUuid(x.cpi, lastGood)
  }

  // ------------------------------------------------------------------- the reference definition

  /** The most significant error is at k: the first from the last known good adaptor if there is one,
      else the earliest of those with the least code. */
  predicate Selects(xs: seq<Exception>, lastGood: Uuid, keep: bool, k: nat) {
    && k < |xs| && Significant(xs[k], keep)
    && if exists x | x in xs :: FromGood(x, lastGood, keep)
       then FromGood(xs[k], lastGood, keep) && forall j | 0 <= j < k :: !FromGood(xs[j], lastGood, keep)
       else forall j | 0 <= j < |xs| && Significant(xs[j], keep) ::
              xs[k].error < xs[j].error || (xs[k].error == xs[j].error && k <= j)
  }

  lemma SelectsOne(xs: seq<Exception>, lastGood: Uuid, keep: bool, j: nat, k: nat)
    requires Selects(xs, lastGood, keep, j) && Selects(xs, lastGood, keep, k)
    ensures j == k
  {
  }

  /** Index of the earliest least code among the first n; |xs| when none of them is significant. */
  function Best(xs: seq<Exception>, keep: bool, n: nat): (b: nat)
    requires n <= |xs|
    ensures b < n || b == |xs|
    ensures b == |xs| ==> forall j | 0 <= j < n :: !Significant(xs[j], keep)
    ensures b < n ==> Significant(xs[b], keep)
    ensures b < n ==> forall j | 0 <= j < n && Significant(xs[j], keep) ::
                        xs[b].error < xs[j].error || (xs[b].error == xs[j].error && b <= j)
  {
    if n == 0 then |xs|
    else
      var b := Best(xs, keep, n - 1);
      if Significant(xs[n - 1], keep) && (b == |xs| || xs[n - 1].error < xs[b].error) then n - 1 else b
  }

  // ------------------------------------------------------------------------- ordered containers

  predicate IsLeast(m: ErrorCode, s: set<ErrorCode>) {
    m in s && forall y | y in s :: m <= y
  }

  lemma {:induction false} LeastExists(s: set<ErrorCode>)
    requires s != {}
    ensures exists m :: IsLeast(m, s)
  {
    var x :| x in s;
    if s - {x} == {} {
      assert IsLeast(x, s) by { assert forall y | y in s :: y in s - {x} || y == x; }
    } else {
      LeastExists(s - {x});
      var m :| IsLeast(m, s - {x});
      if x < m {
        assert forall y | y in s :: y in s - {x} || y == x;
        assert IsLeast(x, s);
      } else {
        assert forall y | y in s :: y in s - {x} || y == x;
        assert IsLeast(m, s);
      }
    }
  }

  /** *s.begin() of an ordered set. */
  function Begin(s: set<ErrorCode>): (m: ErrorCode)
    requires s != {}
    ensures IsLeast(m, s)
  {
    LeastExists(s);
    var m :| m in s && IsLeast(m, s);
    m
  }

  // ---------------------------------------------------------------------------- the two loops

  /** The adaptor recorded by the first exception whose stored object is of known type. */
  predicate IsLastGood(xs: seq<Exception>, lastGood: Uuid) {
    if exists x | x in xs :: x.object_.KnownObject?
    then exists k | 0 <= k < |xs| ::
           xs[k].object_ == KnownObject(lastGood) && forall j | 0 <= j < k :: xs[j].object_.UnknownObject?
    else lastGood == Unset
  }

  /** The first exception with a stored object of known type decides which adaptor was last known good. */
  method LastKnownGood(xs: seq<Exception>) returns (lastGood: Uuid)
    ensures IsLastGood(xs, lastGood)
  {
    var it := 0;
    while it != |xs|
      invariant 0 <= it <= |xs|
      invariant forall j | 0 <= j < it :: xs[j].object_.UnknownObject?
    {
      if xs[it].object_.KnownObject? {
        lastGood := xs[it].object_.lastGood;
        assert xs[it] in xs;
        return;
      }
      it := it + 1;
    }
    lastGood := Unset;
  }

  method GetError(xs: seq<Exception>, lastGood: Uuid, keep: bool) returns (err: ErrorCode)
    ensures (exists k: nat :: Selects(xs, lastGood, keep, k) && err == xs[k].error)
         || ((forall x | x in xs :: !Significant(x, keep)) && err == NOT_IMPLEMENTED)
  {
    var errors: set<ErrorCode> := {};
    var it := 0;
    while it != |xs|
      invariant 0 <= it <= |xs|
      invariant forall j | 0 <= j < it :: !FromGood(xs[j], lastGood, keep)
      invariant forall j | 0 <= j < it && Significant(xs[j], keep) :: xs[j].error in errors
      invariant forall e | e in errors :: exists j | 0 <= j < it :: Significant(xs[j], keep) && xs[j].error == e
    {
      err := xs[it].error;
      if err == ADAPTOR_DECLINED && !keep {
        it := it + 1;
        continue;
      }
      if err != NOT_IMPLEMENTED {
        if SameUuid(xs[it].cpi, lastGood) {
          assert xs[it] in xs && Selects(xs, lastGood, keep, it);
          return;
        }
        errors := errors + {err};
      }
      it := it + 1;
    }
    var b := Best(xs, keep, |xs|);
    if errors == {} {
      err := NOT_IMPLEMENTED;
    } else {
      err := Begin(errors);
      assert Selects(xs, lastGood, keep, b);
    }
  }

  /** The message that goes with the code GetError gives. The branch that would take the message of a
      NotImplemented exception is never entered, because notimpl starts out non-empty. */
  method GetTopMessage(xs: seq<Exception>, lastGood: Uuid, keep: bool) returns (message: string)
    ensures xs == [] ==> message == ""
    ensures xs != [] ==>
              (exists k: nat :: Selects(xs, lastGood, keep, k) && message == xs[k].message)
              || ((forall x | x in xs :: !Significant(x, keep)) && message == "NotImplemented")
  {
    if xs == [] { return ""; }
    var errors: map<ErrorCode, string> := map[];
    var notimpl := "NotImplemented";
    var it := 0;
    while it != |xs|
      invariant 0 <= it <= |xs| && notimpl == "NotImplemented"
      invariant forall j | 0 <= j < it :: !FromGood(xs[j], lastGood, keep)
      invariant forall j | 0 <= j < it && Significant(xs[j], keep) :: xs[j].error in errors
      invariant forall e | e in errors ::
                  exists j | 0 <= j < it :: FirstWith(xs, keep, e, j) && errors[e] == xs[j].message
    {
      var err := xs[it].error;
      if err == ADAPTOR_DECLINED && !keep {
        it := it + 1;
        continue;
      }
      if err != NOT_IMPLEMENTED {
        if SameUuid(xs[it].cpi, lastGood) {
          assert xs[it] in xs && Selects(xs, lastGood, keep, it);
          return xs[it].message;
        }
        if err !in errors {
          assert FirstWith(xs, keep, err, it);
          errors := errors[err := xs[it].message];
        }
      } else {
        assert notimpl != "";
      }
      it := it + 1;
    }
    var b := Best(xs, keep, |xs|);
    if errors == map[] {
      message := notimpl;
    } else {
      var e := Begin(errors.Keys);
      message := errors[e];
      assert Selects(xs, lastGood, keep, b);
    }
  }

  /** xs[j] is the first significant exception with this code. */
  predicate FirstWith(xs: seq<Exception>, keep: bool, e: ErrorCode, j: nat) {
    && j < |xs| && Significant(xs[j], keep) && xs[j].error == e
    && forall i | 0 <= i < j && Significant(xs[i], keep) :: xs[i].error != e
  }

  /** The two loops report the same exception. */
  method ErrorAndMessage(xs: seq<Exception>, keep: bool) returns (lastGood: Uuid, err: ErrorCode, message: string)
    ensures IsLastGood(xs, lastGood)
    ensures xs == [] ==> err == NO_SUCCESS && message == ""
    ensures xs != [] ==>
              || (exists k: nat :: Selects(xs, lastGood, keep, k) && err == xs[k].error && message == xs[k].message)
              || (&& (forall x | x in xs :: !Significant(x, keep))
                  && err == NOT_IMPLEMENTED && message == "NotImplemented")
  {
    if xs == [] { return Unset, NO_SUCCESS, ""; }
    lastGood := LastKnownGood(xs);
    err := GetError(xs, lastGood, keep);
    message := GetTopMessage(xs, lastGood, keep);
    SomethingSelected(xs, lastGood, keep);
    if exists x | x in xs :: Significant(x, keep) {
      ghost var j: nat :| Selects(xs, lastGood, keep, j) && err == xs[j].error;
      ghost var k: nat :| Selects(xs, lastGood, keep, k) && message == xs[k].message;
      SelectsOne(xs, lastGood, keep, j, k);
    }
  }

  /** Without an exception from the last known good adaptor the code does not depend on the order. */
  lemma CodeIgnoresOrder(xs: seq<Exception>, ys: seq<Exception>, lastGood: Uuid, keep: bool, j: nat, k: nat)
    requires multiset(xs) == multiset(ys) && forall x | x in xs :: !FromGood(x, lastGood, keep)
    requires Selects(xs, lastGood, keep, j) && Selects(ys, lastGood, keep, k)
    ensures xs[j].error == ys[k].error
  {
    assert xs[j] in multiset(xs) && ys[k] in multiset(ys);
    assert xs[j] in ys && ys[k] in xs;
    forall y | y in ys ensures y in xs { assert y in multiset(ys); }
  }

  /** A significant exception is always found. */
  lemma SomethingSelected(xs: seq<Exception>, lastGood: Uuid, keep: bool)
    ensures (exists k: nat :: Selects(xs, lastGood, keep, k)) <==> exists x | x in xs :: Significant(x, keep)
  {
    if x :| x in xs && Significant(x, keep) {
      if exists x | x in xs :: FromGood(x, lastGood, keep) {
        var k := FirstGood(xs, lastGood, keep);
        assert Selects(xs, lastGood, keep, k);
      } else {
        var i :| 0 <= i < |xs| && xs[i] == x;
        assert Selects(xs, lastGood, keep, Best(xs, keep, |xs|));
      }
    }
    if k: nat :| Selects(xs, lastGood, keep, k) { assert xs[k] in xs; }
  }

  /** With a last known good adaptor the first significant exception that carries its id is the one reported: the
      first that is neither NotImplemented (1) nor, unless these are kept, AdaptorDeclined (12). */
  lemma GoodWins(xs: seq<Exception>, id: nat, keep: bool, k: nat)
    requires k < |xs| && xs[k].cpi == Set(id) && xs[k].error != 1 && (keep || xs[k].error != 12)
    requires forall j | 0 <= j < k :: xs[j].cpi != Set(id) || xs[j].error == 1 || (xs[j].error == 12 && !keep)
    ensures forall i: nat :: Selects(xs, Set(id), keep, i) <==> i == k
  {
    assert xs[k] in xs && FromGood(xs[k], Set(id), keep);
    assert Selects(xs, Set(id), keep, k);
    forall i: nat | Selects(xs, Set(id), keep, i) ensures i == k { SelectsOne(xs, Set(id), keep, i, k); }
  }

  /** The errors a name space call can meet, most specific first. */
  const BY_SIGNIFICANCE: seq<ErrorCode> :=
    [INCORRECT_URL, BAD_PARAMETER, ALREADY_EXISTS, DOES_NOT_EXIST, INCORRECT_STATE, PERMISSION_DENIED, NO_SUCCESS]

  /** Without a last known good adaptor, what is less specific than some exception in the list is not reported:
      NoSuccess, say, only if no adaptor threw any of the others. */
  lemma LessSpecificIsHidden(xs: seq<Exception>, keep: bool, j: nat, i: nat, a: nat, b: nat)
    requires a < b < |BY_SIGNIFICANCE| && j < |xs| && xs[j].error == BY_SIGNIFICANCE[a]
    requires Selects(xs, Unset, keep, i)
    ensures xs[i].error != BY_SIGNIFICANCE[b]
  {
    assert Significant(xs[j], keep);
    assert BY_SIGNIFICANCE[a] < BY_SIGNIFICANCE[b];
  }

  /** Without a last known good adaptor the code reported is the least of the significant ones, whatever ids the
      exceptions carry. */
  lemma LeastWins(xs: seq<Exception>, keep: bool, e: ErrorCode)
    ensures (exists k: nat :: Selects(xs, Unset, keep, k) && xs[k].error == e) <==>
            && (exists x | x in xs :: Significant(x, keep) && x.error == e)
            && (forall x | x in xs && Significant(x, keep) :: e <= x.error)
  {
    SomethingSelected(xs, Unset, keep);
    if k: nat :| Selects(xs, Unset, keep, k) {
      assert xs[k] in xs;
      forall x | x in xs && Significant(x, keep) ensures xs[k].error <= x.error {
        var i :| 0 <= i < |xs| && xs[i] == x;
      }
    }
  }

  lemma {:induction false} FirstGood(xs: seq<Exception>, lastGood: Uuid, keep: bool) returns (k: nat)
    requires exists x | x in xs :: FromGood(x, lastGood, keep)
    ensures k < |xs| && FromGood(xs[k], lastGood, keep) && forall j | 0 <= j < k :: !FromGood(xs[j], lastGood, keep)
  {
    if FromGood(xs[0], lastGood, keep) {
      k := 0;
    } else {
      assert xs == [xs[0]] + xs[1..];
      k := FirstGood(xs[1..], lastGood, keep);
      k := k + 1;
      forall j | 0 <= j < k ensures !FromGood(xs[j], lastGood, keep) {
        if j > 0 { assert xs[j] == xs[1..][j - 1]; }
      }
    }
  }
}
