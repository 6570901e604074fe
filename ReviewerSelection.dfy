/**
 * The reviewer candidate generator: a stateful source of roster indices that
 * draws without replacement and hands out only active members whose id is
 * not excluded.
 */
module ReviewerSelection {
  import opened Wrappers
  import opened Entities

  /** The valid indices of a roster of length n. */
  function Indices(n: nat): (s: set<int>)
    ensures forall i :: i in s <==> 0 <= i < n
  {
    if n == 0 then {} else Indices(n - 1) + {n - 1}
  }

  lemma {:induction false} IndicesSize(n: nat)
    ensures |Indices(n)| == n
  {
    if n > 0 {
      var below := Indices(n - 1);
      IndicesSize(n - 1);
      assert n - 1 !in below;
      assert |below + {n - 1}| == |below| + 1;
    }
  }

  /**
   * A set of indices of a roster of length n has at most n elements, has n
   * exactly when it holds every index, and otherwise misses some index.
   */
  lemma IndexSubset(s: set<int>, n: nat)
    requires s <= Indices(n)
    ensures |s| <= n
    ensures |s| == n ==> s == Indices(n)
    ensures |s| < n ==> exists i :: 0 <= i < n && i !in s
  {
    IndicesSize(n);
    var t := Indices(n);
    var d := t - s;
    assert s * d == {};
    assert s + d == t;
    assert |t| == |s| + |d|;
    if d != {} {
      var i :| i in d;
      assert 0 <= i < n && i !in s;
    }
  }

  /** A roster member may review when it is active and its id is not excluded. */
  predicate Eligible(col: seq<User>, except: seq<UserID>, i: int)
    requires 0 <= i < |col|
  {
    col[i].isActive && col[i].id !in except
  }

  /** The scan of the exclusion list for one id, stopping at the first match. */
  method IsExcepted(except: seq<UserID>, id: UserID) returns (flagExcept: bool)
    ensures flagExcept <==> id in except
  {
    flagExcept := false;
    var j := 0;
    while j < |except|
      invariant 0 <= j <= |except|
      invariant !flagExcept ==> id !in except[..j]
      invariant flagExcept ==> id in except
    {
      if except[j] == id {
        flagExcept := true;
        break;
      }
      j := j + 1;
    }
    assert !flagExcept ==> except[..j] == except;
  }

  /**
   * The generator's invariant over its state: `tried` holds roster indices
   * only; `returned` lists distinct, tried, eligible indices; and every tried
   * eligible index has been returned.
   */
  ghost predicate GenInv(col: seq<User>, except: seq<UserID>, tried: set<int>, returned: seq<int>)
  {
    && tried <= Indices(|col|)
    && (forall k :: 0 <= k < |returned| ==>
          returned[k] in tried && 0 <= returned[k] < |col| && Eligible(col, except, returned[k]))
    && (forall k, l :: 0 <= k < l < |returned| ==> returned[k] != returned[l])
    && (forall i :: i in tried ==> 0 <= i < |col| && (Eligible(col, except, i) ==> i in returned))
  }

  /** Marking an ineligible untried index as tried keeps the invariant. */
  lemma TryIneligible(col: seq<User>, except: seq<UserID>, tried: set<int>, returned: seq<int>, i: int)
    requires GenInv(col, except, tried, returned)
    requires 0 <= i < |col| && i !in tried && !Eligible(col, except, i)
    ensures GenInv(col, except, tried + {i}, returned)
  {
  }

  /** Marking an eligible untried index as tried and returning it keeps the invariant. */
  lemma TryEligible(col: seq<User>, except: seq<UserID>, tried: set<int>, returned: seq<int>, i: int)
    requires GenInv(col, except, tried, returned)
    requires 0 <= i < |col| && i !in tried && Eligible(col, except, i)
    ensures GenInv(col, except, tried + {i}, returned + [i])
  {
  }

  /** Once every index is tried, every eligible index has been returned. */
  lemma Exhausted(col: seq<User>, except: seq<UserID>, tried: set<int>, returned: seq<int>)
    requires GenInv(col, except, tried, returned)
    requires tried == Indices(|col|)
    ensures forall i :: 0 <= i < |col| && Eligible(col, except, i) ==> i in returned
  {
  }

  /**
   * The generator returned for a roster `col` and excluded ids `except`.
   * `tried` is the set of inspected indices; `returned` (ghost) records the
   * indices handed out so far, in order.
   */
  class ReviewerRandGen {
    const col: seq<User>
    const except: seq<UserID>
    var tried: set<int>
    ghost var returned: seq<int>

    ghost predicate Valid()
      reads this
    {
      GenInv(col, except, tried, returned)
    }

    constructor (col: seq<User>, except: seq<UserID>)
      ensures this.col == col && this.except == except
      ensures tried == {} && returned == []
      ensures Valid()
    {
      this.col := col;
      this.except := except;
      tried := {};
      returned := [];
    }

    /**
     * One call of the generator: probes untried indices in random order and
     * returns the first eligible one; fails with ErrReviewerAssign and -1 once
     * every index has been tried.
     */
    method Next() returns (idx: int, err: Option<Error>)
      requires Valid()
      modifies this
      ensures Valid()
      ensures old(tried) <= tried && |old(tried)| <= |tried| <= |col|
      ensures err == None ==> |old(tried)| < |tried|
      ensures err == None <==> exists i :: 0 <= i < |col| && i !in old(tried) && Eligible(col, except, i)
      ensures err == None ==>
        && 0 <= idx < |col| && Eligible(col, except, idx)
        && idx !in old(tried) && idx in tried
        && returned == old(returned) + [idx]
      ensures err != None ==>
        && idx == -1 && err == Some(ErrReviewerAssign)
        && tried == Indices(|col|) && returned == old(returned)
        && (forall i :: 0 <= i < |col| && Eligible(col, except, i) ==> i in returned)
      ensures forall i :: i in tried && i !in old(tried) && i != idx ==> 0 <= i < |col| && !Eligible(col, except, i)
    {
      while |tried| != |col|
        invariant Valid()
        invariant old(tried) <= tried && |old(tried)| <= |tried|
        invariant returned == old(returned)
        invariant forall i :: i in tried && i !in old(tried) ==> 0 <= i < |col| && !Eligible(col, except, i)
        decreases |col| - |tried|
      {
        IndexSubset(tried, |col|);
        var i :| 0 <= i < |col| && i !in tried;
        var flagExcept := IsExcepted(except, col[i].id);
        if col[i].isActive && !flagExcept {
          TryEligible(col, except, tried, returned, i);
          tried := tried + {i};
          returned := returned + [i];
          return i, None;
        }
        TryIneligible(col, except, tried, returned, i);
        tried := tried + {i};
      }
      IndexSubset(tried, |col|);
      Exhausted(col, except, tried, returned);
      return -1, Some(ErrReviewerAssign);
    }
  }

  /**
   * Calls one fresh generator until it fails. The indices it hands out are
   * pairwise distinct and are exactly the eligible indices of the roster.
   */
  method DrainCandidates(col: seq<User>, except: seq<UserID>) returns (picked: seq<int>)
    ensures forall k, l :: 0 <= k < l < |picked| ==> picked[k] != picked[l]
    ensures forall k :: 0 <= k < |picked| ==> 0 <= picked[k] < |col| && Eligible(col, except, picked[k])
    ensures forall i :: 0 <= i < |col| && Eligible(col, except, i) ==> i in picked
  {
    var gen := new ReviewerRandGen(col, except);
    picked := [];
    var done := false;
    while !done
      invariant gen.Valid() && gen.col == col && gen.except == except
      invariant picked == gen.returned
      invariant done ==> forall i :: 0 <= i < |col| && Eligible(col, except, i) ==> i in picked
      invariant |gen.tried| <= |col|
      decreases |col| - |gen.tried|, if done then 0 else 1
    {
      var idx, err := gen.Next();
      if err == None {
        picked := picked + [idx];
      } else {
        done := true;
      }
    }
  }
}
