/**
 * The memo cache and key resolver of keysort, as values.
 *
 * A cache maps original indices to memoised keys and to recorded errors.
 * The field `calls` is the model's own log of every original index that was
 * handed to the wrapped collection's Key, in call order; it is what lets
 * the model state "computed at most once".
 */
module MemoCache {
  import opened Permutation

  datatype Option<T> = None | Some(value: T)

  /**
   * What the wrapped collection's Key returns: a key value together with an
   * error or none. Both are returned at once, and the value is memoised even
   * when the error is set.
   */
  datatype KeyOutcome<K, E> = KeyOutcome(value: K, err: Option<E>)

  datatype Cache<K, E> = Cache(memo: map<int, K>, errors: map<int, E>, calls: seq<int>)

  /** The cache of a freshly built adapter: nothing memoised, nothing failed, nothing called. */
  function Empty<K, E>(): (c: Cache<K, E>)
  {
    Cache(map[], map[], [])
  }

  /**
   * Resolving original index x. A memoised x is left alone. Otherwise the
   * wrapped Key is called with x, which computes the key of the element
   * CURRENTLY at position x of `elems`; its value is memoised whatever
   * happened, its error recorded, or an old error for x deleted.
   */
  function Resolve<T, K, E>(keyOf: T -> KeyOutcome<K, E>, elems: seq<T>, c: Cache<K, E>, x: int): (r: Cache<K, E>)
    requires 0 <= x < |elems|
    ensures x in r.memo
  {
    if x in c.memo then c
    else
      var out := keyOf(elems[x]);
      Cache(c.memo[x := out.value],
            match out.err
            case Some(e) => c.errors[x := e]
            case None => c.errors - {x},
            c.calls + [x])
  }

  /** Resolving the original indices xs one after the other, first to last. */
  function ResolveAll<T, K, E>(keyOf: T -> KeyOutcome<K, E>, elems: seq<T>, c: Cache<K, E>, xs: seq<int>): (r: Cache<K, E>)
    requires InRange(xs, |elems|)
    decreases |xs|
  {
    if xs == [] then c
    else Resolve(keyOf, elems, ResolveAll(keyOf, elems, c, xs[..|xs| - 1]), xs[|xs| - 1])
  }

  /**
   * The bookkeeping every reachable cache keeps: memoised indices are below
   * n, only memoised indices carry errors, and the indices ever handed to
   * the wrapped Key are exactly the memoised ones, each handed over once.
   */
  ghost predicate Coherent<K, E>(c: Cache<K, E>, n: int)
  {
    && (forall x :: x in c.memo ==> 0 <= x < n)
    && c.errors.Keys <= c.memo.Keys
    && Distinct(c.calls)
    && (forall x :: x in c.calls <==> x in c.memo)
  }

  /** Every memoised key is the key of the element at that index of elems. */
  ghost predicate MemoFaithful<T, K, E>(c: Cache<K, E>, keyOf: T -> KeyOutcome<K, E>, elems: seq<T>)
  {
    forall x :: x in c.memo ==> 0 <= x < |elems| && c.memo[x] == keyOf(elems[x]).value
  }

  /** A memoised index carries an error exactly when its key computation on elems failed, and that error. */
  ghost predicate ErrorsFaithful<T, K, E>(c: Cache<K, E>, keyOf: T -> KeyOutcome<K, E>, elems: seq<T>)
  {
    forall x :: x in c.memo ==> 0 <= x < |elems| && (x in c.errors <==> keyOf(elems[x]).err.Some?)
                                && (x in c.errors ==> keyOf(elems[x]).err == Some(c.errors[x]))
  }

  /** How often x occurs in s: the number of wrapped Key calls made for x. */
  function Count(s: seq<int>, x: int): (n: nat)
  {
    if s == [] then 0 else (if s[0] == x then 1 else 0) + Count(s[1..], x)
  }

  /**
   * Resolving an index that is already memoised changes nothing and calls
   * nothing; resolving a new one calls the wrapped Key exactly once, for
   * that index, and stores its value.
   */
  lemma ResolveCallsOnlyWhenMissing<T, K, E>(keyOf: T -> KeyOutcome<K, E>, elems: seq<T>, c: Cache<K, E>, x: int)
    requires 0 <= x < |elems|
    ensures x in c.memo ==> Resolve(keyOf, elems, c, x) == c
    ensures x !in c.memo ==> Resolve(keyOf, elems, c, x).calls == c.calls + [x]
    ensures x !in c.memo ==> Resolve(keyOf, elems, c, x).memo[x] == keyOf(elems[x]).value
  {
  }

  /** One resolution keeps the cache coherent. */
  lemma ResolveKeepsCoherent<T, K, E>(keyOf: T -> KeyOutcome<K, E>, elems: seq<T>, c: Cache<K, E>, x: int)
    requires Coherent(c, |elems|) && 0 <= x < |elems|
    ensures Coherent(Resolve(keyOf, elems, c, x), |elems|)
  {
    if x !in c.memo {
      var r := Resolve(keyOf, elems, c, x);
      assert x !in c.calls;
      forall a, b | 0 <= a < b < |r.calls|
        ensures r.calls[a] != r.calls[b]
      {
        if b == |c.calls| {
          assert r.calls[a] == c.calls[a];
        }
      }
    }
  }

  /** Any sequence of resolutions keeps the cache coherent. */
  lemma {:induction false} ResolveAllKeepsCoherent<T, K, E>(keyOf: T -> KeyOutcome<K, E>, elems: seq<T>, c: Cache<K, E>, xs: seq<int>)
    requires Coherent(c, |elems|) && InRange(xs, |elems|)
    ensures Coherent(ResolveAll(keyOf, elems, c, xs), |elems|)
    decreases |xs|
  {
    if xs != [] {
      var init := xs[..|xs| - 1];
      ResolveAllKeepsCoherent(keyOf, elems, c, init);
      ResolveKeepsCoherent(keyOf, elems, ResolveAll(keyOf, elems, c, init), xs[|xs| - 1]);
    }
  }

  /**
   * Resolutions only ever add to the memo: afterwards exactly the requested
   * indices are memoised besides those memoised before, and every key
   * memoised before keeps its value.
   */
  lemma {:induction false} ResolveAllExtends<T, K, E>(keyOf: T -> KeyOutcome<K, E>, elems: seq<T>, c: Cache<K, E>, xs: seq<int>)
    requires InRange(xs, |elems|)
    ensures ResolveAll(keyOf, elems, c, xs).memo.Keys == c.memo.Keys + (set y | y in xs)
    ensures forall x :: x in c.memo ==> ResolveAll(keyOf, elems, c, xs).memo[x] == c.memo[x]
    decreases |xs|
  {
    if xs != [] {
      var init := xs[..|xs| - 1];
      var last := xs[|xs| - 1];
      ResolveAllExtends(keyOf, elems, c, init);
      assert xs == init + [last];
      assert (set y | y in xs) == (set y | y in init) + {last};
    }
  }

  /** The log of wrapped Key calls is only ever appended to. */
  lemma {:induction false} ResolveAllAppendsCalls<T, K, E>(keyOf: T -> KeyOutcome<K, E>, elems: seq<T>, c: Cache<K, E>, xs: seq<int>)
    requires InRange(xs, |elems|)
    ensures |c.calls| <= |ResolveAll(keyOf, elems, c, xs).calls|
    ensures ResolveAll(keyOf, elems, c, xs).calls[..|c.calls|] == c.calls
    decreases |xs|
  {
    if xs != [] {
      var init := xs[..|xs| - 1];
      ResolveAllAppendsCalls(keyOf, elems, c, init);
      var mid := ResolveAll(keyOf, elems, c, init);
      assert Resolve(keyOf, elems, mid, xs[|xs| - 1]).calls[..|c.calls|] == mid.calls[..|c.calls|];
    }
  }

  /**
   * On a coherent cache the recorded errors never shrink: an error is only
   * recorded for a memoised index, and a memoised index is never resolved
   * again, so its error is never deleted.
   */
  lemma {:induction false} ResolveAllKeepsErrors<T, K, E>(keyOf: T -> KeyOutcome<K, E>, elems: seq<T>, c: Cache<K, E>, xs: seq<int>)
    requires Coherent(c, |elems|) && InRange(xs, |elems|)
    ensures forall x :: x in c.errors ==> x in ResolveAll(keyOf, elems, c, xs).errors
                                          && ResolveAll(keyOf, elems, c, xs).errors[x] == c.errors[x]
    decreases |xs|
  {
    if xs != [] {
      var init := xs[..|xs| - 1];
      ResolveAllKeepsErrors(keyOf, elems, c, init);
      ResolveAllKeepsCoherent(keyOf, elems, c, init);
    }
  }

  /**
   * Resolving indices that are all memoised already is a no-op: no wrapped
   * Key call happens and no memoised value or recorded error changes.
   */
  lemma {:induction false} ResolveAllMemoised<T, K, E>(keyOf: T -> KeyOutcome<K, E>, elems: seq<T>, c: Cache<K, E>, xs: seq<int>)
    requires InRange(xs, |elems|)
    requires forall k :: 0 <= k < |xs| ==> xs[k] in c.memo
    ensures ResolveAll(keyOf, elems, c, xs) == c
    decreases |xs|
  {
    if xs != [] {
      ResolveAllMemoised(keyOf, elems, c, xs[..|xs| - 1]);
    }
  }

  /**
   * Resolving distinct, not yet memoised indices calls the wrapped Key once
   * for each of them, in order.
   */
  lemma {:induction false} ResolveAllFresh<T, K, E>(keyOf: T -> KeyOutcome<K, E>, elems: seq<T>, c: Cache<K, E>, xs: seq<int>)
    requires InRange(xs, |elems|) && Distinct(xs)
    requires forall k :: 0 <= k < |xs| ==> xs[k] !in c.memo
    ensures ResolveAll(keyOf, elems, c, xs).calls == c.calls + xs
    decreases |xs|
  {
    if xs != [] {
      var init := xs[..|xs| - 1];
      var last := xs[|xs| - 1];
      assert Distinct(init) by {
        forall a, b | 0 <= a < b < |init|
          ensures init[a] != init[b]
        {
          assert init[a] == xs[a] && init[b] == xs[b];
        }
      }
      ResolveAllFresh(keyOf, elems, c, init);
      var mid := ResolveAll(keyOf, elems, c, init);
      assert last !in mid.memo by {
        ResolveAllExtends(keyOf, elems, c, init);
        forall k | 0 <= k < |init|
          ensures init[k] != last
        {
          assert init[k] == xs[k];
        }
      }
      assert ResolveAll(keyOf, elems, c, xs) == Resolve(keyOf, elems, mid, last);
      assert xs == init + [last];
    }
  }

  /** One resolution on the same elements keeps a faithful cache faithful. */
  lemma ResolveKeepsFaithful<T, K, E>(keyOf: T -> KeyOutcome<K, E>, elems: seq<T>, c: Cache<K, E>, x: int)
    requires 0 <= x < |elems|
    requires MemoFaithful(c, keyOf, elems) && ErrorsFaithful(c, keyOf, elems)
    ensures MemoFaithful(Resolve(keyOf, elems, c, x), keyOf, elems)
    ensures ErrorsFaithful(Resolve(keyOf, elems, c, x), keyOf, elems)
  {
  }

  /**
   * Resolutions on the same elements keep a faithful cache faithful: every
   * key memoised and every error recorded is what the wrapped Key returns.
   */
  lemma {:induction false} ResolveAllKeepsFaithful<T, K, E>(keyOf: T -> KeyOutcome<K, E>, elems: seq<T>, c: Cache<K, E>, xs: seq<int>)
    requires InRange(xs, |elems|)
    requires MemoFaithful(c, keyOf, elems) && ErrorsFaithful(c, keyOf, elems)
    ensures MemoFaithful(ResolveAll(keyOf, elems, c, xs), keyOf, elems)
    ensures ErrorsFaithful(ResolveAll(keyOf, elems, c, xs), keyOf, elems)
    decreases |xs|
  {
    if xs != [] {
      var init := xs[..|xs| - 1];
      ResolveAllKeepsFaithful(keyOf, elems, c, init);
      ResolveKeepsFaithful(keyOf, elems, ResolveAll(keyOf, elems, c, init), xs[|xs| - 1]);
    }
  }

  /**
   * Priming from an empty cache over all indices in order: the wrapped Key
   * is called exactly once per index, 0 to n-1, afterwards every index is
   * memoised with the key of the element at that index, and exactly the
   * failed computations are recorded as errors.
   */
  lemma PrimingFromEmpty<T, K, E>(keyOf: T -> KeyOutcome<K, E>, elems: seq<T>)
    ensures var r := ResolveAll(keyOf, elems, Empty(), Range(|elems|));
            && r.calls == Range(|elems|)
            && (forall x :: x in r.memo <==> 0 <= x < |elems|)
            && MemoFaithful(r, keyOf, elems)
            && ErrorsFaithful(r, keyOf, elems)
            && Coherent(r, |elems|)
  {
    var n := |elems|;
    var c: Cache<K, E> := Empty();
    var r := ResolveAll(keyOf, elems, c, Range(n));
    assert r.calls == Range(n) by {
      ResolveAllFresh(keyOf, elems, c, Range(n));
    }
    assert MemoFaithful(r, keyOf, elems) && ErrorsFaithful(r, keyOf, elems) by {
      ResolveAllKeepsFaithful(keyOf, elems, c, Range(n));
    }
    assert Coherent(r, n) by {
      ResolveAllKeepsCoherent(keyOf, elems, c, Range(n));
    }
    assert forall x :: x in r.memo <==> 0 <= x < n by {
      ResolveAllExtends(keyOf, elems, c, Range(n));
      forall x | 0 <= x < n
        ensures x in r.memo
      {
        assert Range(n)[x] == x;
      }
    }
  }

  /**
   * In a coherent cache the wrapped Key has been called at most once for
   * every index, and exactly once for the memoised ones.
   */
  lemma CallsAtMostOnce<K, E>(c: Cache<K, E>, n: int, x: int)
    requires Coherent(c, n)
    ensures Count(c.calls, x) <= 1
    ensures Count(c.calls, x) == 1 <==> x in c.memo
  {
    DistinctCount(c.calls, x);
  }

  /**
   * The call log `after` extends `before`, and every call added is for an
   * index that `memo` did not hold: nothing memoised was computed again.
   */
  ghost predicate OnlyFreshCalls<K>(before: seq<int>, after: seq<int>, memo: map<int, K>)
  {
    before <= after && forall k :: |before| <= k < |after| ==> after[k] !in memo
  }

  /** Two extensions by fresh calls make one, judged against the earlier, smaller memo. */
  lemma OnlyFreshCallsCompose<K>(a: seq<int>, b: seq<int>, c: seq<int>, m1: map<int, K>, m2: map<int, K>)
    requires OnlyFreshCalls(a, b, m1) && OnlyFreshCalls(b, c, m2) && m1.Keys <= m2.Keys
    ensures OnlyFreshCalls(a, c, m1)
  {
    forall k | |a| <= k < |c|
      ensures c[k] !in m1
    {
      if k < |b| {
        assert c[k] == b[k];
      }
    }
  }

  /** Occurrences in a concatenation add up. */
  lemma {:induction false} CountAppend(s: seq<int>, t: seq<int>, x: int)
    ensures Count(s + t, x) == Count(s, x) + Count(t, x)
  {
    if s == [] {
      assert s + t == t;
    } else {
      assert (s + t)[1..] == s[1..] + t;
      CountAppend(s[1..], t, x);
    }
  }

  /** A value that is not in s occurs there zero times. */
  lemma {:induction false} CountAbsent(s: seq<int>, x: int)
    requires forall k :: 0 <= k < |s| ==> s[k] != x
    ensures Count(s, x) == 0
  {
    if s != [] {
      CountAbsent(s[1..], x);
    }
  }

  /**
   * When the log only grew by calls for unmemoised indices, an index that
   * was memoised has exactly as many calls as before: it was not recomputed.
   */
  lemma MemoisedNotRecomputed<K>(before: seq<int>, after: seq<int>, memo: map<int, K>, x: int)
    requires OnlyFreshCalls(before, after, memo) && x in memo
    ensures Count(after, x) == Count(before, x)
  {
    var added := after[|before|..];
    assert after == before + added;
    CountAppend(before, added, x);
    forall k | 0 <= k < |added|
      ensures added[k] != x
    {
      assert added[k] == after[|before| + k];
    }
    CountAbsent(added, x);
  }

  /** In a sequence without repetitions every value occurs once or not at all. */
  lemma {:induction false} DistinctCount(s: seq<int>, x: int)
    requires Distinct(s)
    ensures Count(s, x) == if x in s then 1 else 0
  {
    if s != [] {
      assert Distinct(s[1..]) by {
        forall a, b | 0 <= a < b < |s[1..]|
          ensures s[1..][a] != s[1..][b]
        {
          assert s[1..][a] == s[a + 1] && s[1..][b] == s[b + 1];
        }
      }
      DistinctCount(s[1..], x);
      if s[0] == x {
        assert x !in s[1..] by {
          forall k | 0 <= k < |s[1..]|
            ensures s[1..][k] != x
          {
            assert s[1..][k] == s[k + 1];
          }
        }
      } else {
        assert x in s <==> x in s[1..];
      }
    }
  }

  /**
   * In a coherent cache the wrapped Key has been called at most n times in
   * all, one call per element at most.
   */
  lemma CallsBounded<K, E>(c: Cache<K, E>, n: int)
    requires Coherent(c, n)
    ensures |c.calls| <= if n < 0 then 0 else n
  {
    DistinctSize(c.calls);
    BoundedSetSize((set x | x in c.calls), n);
  }

  /**
   * Retrying failed indices could not recompute them even if they were
   * sent: every index with a recorded error is memoised, so resolving any
   * sequence of them changes nothing and calls nothing.
   */
  lemma RetryOfErroredIsNoOp<T, K, E>(keyOf: T -> KeyOutcome<K, E>, elems: seq<T>, c: Cache<K, E>, xs: seq<int>)
    requires Coherent(c, |elems|) && InRange(xs, |elems|)
    requires forall k :: 0 <= k < |xs| ==> xs[k] in c.errors
    ensures ResolveAll(keyOf, elems, c, xs) == c
  {
    ResolveAllMemoised(keyOf, elems, c, xs);
  }
}
