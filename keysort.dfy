/**
 * The keysort adapter: a Schwartzian-transform wrapper that lets an
 * external comparison sort order a collection by an expensive key while
 * computing each element's key once.
 *
 * The wrapped collection is an array the adapter swaps in place. Its Key
 * is the function `keyOf` applied to the element that is currently at the
 * position asked for, and its LessVal is the predicate `lessVal` on keys.
 * The adapter keeps `swaps` (current position to original index), `memo`
 * (original index to key) and `errors` (original index to error).
 */
module Keysort {
  import opened Permutation
  import opened MemoCache

  /** The aggregate error: every original index whose key computation failed, with its error. */
  datatype PrimingError<E> = PrimingError(errors: map<int, E>)

  class KeySortable<T, K, E> {
    const wrapped: array<T>
    const keyOf: T -> KeyOutcome<K, E>
    const lessVal: (K, K) -> bool
    const swaps: array<int>
    var memo: map<int, K>
    var errors: map<int, E>

    // Model-only state: the elements as they were when the adapter was
    // built, and every original index handed to the wrapped Key, in order.
    ghost const original: seq<T>
    ghost var keyCalls: seq<int>

    /** The memo cache as a value. */
    ghost function State(): Cache<K, E>
      reads this
    {
      Cache(memo, errors, keyCalls)
    }

    /**
     * The adapter's invariant: `swaps` is a permutation of the original
     * indices, the element at each position is the original element whose
     * index `swaps` records there, and the cache is coherent.
     */
    ghost predicate Valid()
      reads this, swaps, wrapped
    {
      && swaps as object != wrapped as object
      && swaps.Length == wrapped.Length == |original|
      && IsPermutation(swaps[..], |original|)
      && (forall p :: 0 <= p < swaps.Length ==> 0 <= swaps[p] < |original| && wrapped[p] == original[swaps[p]])
      && Coherent(State(), |original|)
    }

    /** Every original index is memoised with the key of the element originally there. */
    ghost predicate Primed()
      reads this
    {
      forall x :: 0 <= x < |original| ==> x in memo && memo[x] == keyOf(original[x]).value
    }

    /** Builds the adapter: the identity arrangement and an empty cache. */
    constructor (wrapped: array<T>, keyOf: T -> KeyOutcome<K, E>, lessVal: (K, K) -> bool)
      ensures Valid() && fresh(swaps)
      ensures this.wrapped == wrapped && this.keyOf == keyOf && this.lessVal == lessVal
      ensures original == wrapped[..]
      ensures swaps[..] == Range(wrapped.Length)
      ensures memo == map[] && errors == map[] && keyCalls == []
    {
      var n := wrapped.Length;
      var s := new int[n];
      var i := 0;
      while i < n
        invariant 0 <= i <= n
        invariant forall k :: 0 <= k < i ==> s[k] == k
      {
        s[i] := i;
        i := i + 1;
      }
      this.wrapped := wrapped;
      this.keyOf := keyOf;
      this.lessVal := lessVal;
      swaps := s;
      memo := map[];
      errors := map[];
      original := wrapped[..];
      keyCalls := [];
      new;
      assert swaps[..] == Range(n);
      RangeIsPermutation(n);
    }

    /** The number of elements; the tracker covers exactly that many positions. */
    function Len(): (n: int)
      reads this, swaps, wrapped
      requires Valid()
      ensures n == |original| == swaps.Length
    {
      wrapped.Length
    }

    /**
     * The key of the element at position i. If its original index is
     * memoised, that key is returned and nothing changes. Otherwise the
     * wrapped Key is called once, with the ORIGINAL index; it computes the
     * key of the element currently at that position, and the result is
     * memoised even when the call failed, the error recorded or cleared.
     */
    method Key(i: int) returns (k: K)
      requires Valid() && 0 <= i < Len()
      modifies this
      ensures Valid()
      ensures State() == Resolve(keyOf, wrapped[..], old(State()), swaps[i])
      ensures swaps[i] in memo && k == memo[swaps[i]]
      ensures old(swaps[i] in memo) ==> State() == old(State()) && k == old(memo[swaps[i]])
      ensures old(swaps[i] !in memo) ==> keyCalls == old(keyCalls) + [swaps[i]]
                                         && k == keyOf(wrapped[swaps[i]]).value
      ensures OnlyFreshCalls(old(keyCalls), keyCalls, old(memo))
      ensures forall x :: x in old(memo) ==> x in memo && memo[x] == old(memo[x])
      ensures forall x :: x in old(errors) ==> x in errors && errors[x] == old(errors[x])
      ensures old(Primed()) ==> Primed() && State() == old(State()) && k == keyOf(wrapped[i]).value
    {
      var originalIndex := swaps[i];
      if originalIndex !in memo {
        var outcome := keyOf(wrapped[originalIndex]);
        keyCalls := keyCalls + [originalIndex];
        memo := memo[originalIndex := outcome.value];
        if outcome.err.Some? {
          errors := errors[originalIndex := outcome.err.value];
        } else {
          errors := errors - {originalIndex};
        }
      }
      ResolveKeepsCoherent(keyOf, wrapped[..], old(State()), originalIndex);
      k := memo[swaps[i]];
    }

    /**
     * Exchanges the elements at positions i and j, and the original
     * indices the tracker records for them; the cache is untouched.
     */
    method Swap(i: int, j: int)
      requires Valid() && 0 <= i < Len() && 0 <= j < Len()
      modifies swaps, wrapped
      ensures Valid()
      ensures swaps[..] == Swapped(old(swaps[..]), i, j)
      ensures wrapped[..] == Swapped(old(wrapped[..]), i, j)
      ensures unchanged(this)
    {
      SwapKeepsPermutation(swaps[..], |original|, i, j);
      swaps[i], swaps[j] := swaps[j], swaps[i];
      wrapped[i], wrapped[j] := wrapped[j], wrapped[i];
    }

    /**
     * Whether the element at i goes before the element at j. Both keys are
     * resolved first; if any original index then has a recorded error the
     * answer is false, otherwise it is lessVal on the two keys. Once an
     * error is recorded, every answer is false until the errors are cleared.
     */
    method Less(i: int, j: int) returns (b: bool)
      requires Valid() && 0 <= i < Len() && 0 <= j < Len()
      modifies this
      ensures Valid()
      ensures State() == Resolve(keyOf, wrapped[..], Resolve(keyOf, wrapped[..], old(State()), swaps[i]), swaps[j])
      ensures swaps[i] in memo && swaps[j] in memo
      ensures b == (|errors| == 0 && lessVal(memo[swaps[i]], memo[swaps[j]]))
      ensures forall x :: x in old(memo) ==> x in memo && memo[x] == old(memo[x])
      ensures forall x :: x in old(errors) ==> x in errors && errors[x] == old(errors[x])
      ensures old(|errors|) > 0 ==> !b
      ensures OnlyFreshCalls(old(keyCalls), keyCalls, old(memo))
      ensures old(Primed()) ==> Primed() && State() == old(State())
                                && (b <==> |errors| == 0 && lessVal(keyOf(wrapped[i]).value, keyOf(wrapped[j]).value))
    {
      ghost var calls0, memo0 := keyCalls, memo;
      var iValue := Key(i);
      ghost var calls1, memo1 := keyCalls, memo;
      var jValue := Key(j);
      assert OnlyFreshCalls(calls0, keyCalls, memo0) by {
        OnlyFreshCallsCompose(calls0, calls1, keyCalls, memo0, memo1);
      }
      if Errors().Some? {
        return false;
      }
      b := lessVal(iValue, jValue);
    }

    /**
     * Resolves the keys at the positions `indexes`, in order: the
     * sequential form of priming, whatever the source of indices.
     */
    method Memoize(indexes: seq<int>)
      requires Valid() && InRange(indexes, Len())
      modifies this
      ensures Valid()
      ensures InRange(Originals(swaps[..], indexes), |original|)
      ensures State() == ResolveAll(keyOf, wrapped[..], old(State()), Originals(swaps[..], indexes))
    {
      var k := 0;
      while k < |indexes|
        invariant 0 <= k <= |indexes|
        invariant Valid()
        invariant InRange(Originals(swaps[..], indexes[..k]), |original|)
        invariant State() == ResolveAll(keyOf, wrapped[..], old(State()), Originals(swaps[..], indexes[..k]))
      {
        var _ := Key(indexes[k]);
        assert Originals(swaps[..], indexes[..k + 1]) == Originals(swaps[..], indexes[..k]) + [swaps[indexes[k]]];
        k := k + 1;
      }
      assert indexes[..k] == indexes;
    }

    /** Every position, 0 to Len()-1: the index source that primes all keys. */
    method AllIndexes() returns (sent: seq<int>)
      requires Valid()
      ensures sent == Range(Len())
    {
      sent := [];
      var i := 0;
      while i < Len()
        invariant 0 <= i <= Len()
        invariant sent == Range(i)
      {
        sent := sent + [i];
        i := i + 1;
      }
    }

    /**
     * The index source meant to retry failures. It collects the errored
     * original indices, but then sends the POSITIONS of that collection,
     * 0 to k-1 for k errors, not the indices themselves.
     */
    method ErroredIndexes() returns (sent: seq<int>)
      requires Valid()
      ensures sent == Range(|errors|)
      ensures InRange(sent, Len())
    {
      var erroredIndices: seq<int> := [];
      var pending := errors.Keys;
      while pending != {}
        invariant pending <= errors.Keys
        invariant |erroredIndices| + |pending| == |errors.Keys|
        invariant forall x :: x in erroredIndices ==> x in errors && x !in pending
        invariant forall x :: x in errors ==> x in pending || x in erroredIndices
        decreases |pending|
      {
        NonEmptyHasMember(pending);
        var x :| x in pending;
        erroredIndices := erroredIndices + [x];
        pending := pending - {x};
      }
      sent := [];
      var p := 0;
      while p < |erroredIndices|
        invariant 0 <= p <= |erroredIndices|
        invariant sent == Range(p)
      {
        sent := sent + [p];
        p := p + 1;
      }
      BoundedSetSize(errors.Keys, |original|);
    }

    /** Removes every recorded error; memoised keys and the tracker are untouched. */
    method ClearErrors()
      requires Valid()
      modifies this
      ensures Valid()
      ensures errors == map[] && memo == old(memo) && keyCalls == old(keyCalls)
    {
      while errors.Keys != {}
        invariant Valid() && memo == old(memo) && keyCalls == old(keyCalls)
        decreases |errors|
      {
        NonEmptyHasMember(errors.Keys);
        var x :| x in errors.Keys;
        errors := errors - {x};
      }
    }

    /**
     * Meant to retry the failed keys. As written it clears the errors
     * BEFORE collecting the failed indices, so no index is sent, nothing is
     * resolved and no wrapped Key call happens: the failures are forgotten.
     */
    method RetryFailed()
      requires Valid()
      modifies this
      ensures Valid()
      ensures errors == map[] && memo == old(memo) && keyCalls == old(keyCalls)
    {
      ClearErrors();
      var indexes := ErroredIndexes();
      Memoize(indexes);
    }

    /** No error exactly when no key computation has a recorded error; otherwise the aggregate of them all. */
    function Errors(): (r: Option<PrimingError<E>>)
      reads this
      ensures r.None? <==> |errors| == 0
      ensures r.Some? ==> r.value.errors == errors
    {
      if |errors| == 0 then None else Some(PrimingError(errors))
    }
  }

  /** A non-empty set has a member to pick. */
  lemma NonEmptyHasMember(s: set<int>)
    requires s != {}
    ensures exists x :: x in s
  {
    if forall y :: y !in s {
      assert false;
    }
  }

  /**
   * Builds the adapter and primes it: every key is resolved, in index
   * order, before any swap, so each is the key of the element originally
   * at that index.
   */
  method PrimedKeysort<T, K, E>(wrapped: array<T>, keyOf: T -> KeyOutcome<K, E>, lessVal: (K, K) -> bool)
    returns (ks: KeySortable<T, K, E>)
    ensures fresh(ks) && fresh(ks.swaps) && ks.Valid()
    ensures ks.wrapped == wrapped && ks.keyOf == keyOf && ks.lessVal == lessVal
    ensures ks.original == wrapped[..] && ks.swaps[..] == Range(wrapped.Length)
    ensures ks.Primed() && ErrorsFaithful(ks.State(), keyOf, ks.original)
    ensures ks.keyCalls == Range(wrapped.Length)
  {
    ks := new KeySortable(wrapped, keyOf, lessVal);
    var indexes := ks.AllIndexes();
    assert Originals(ks.swaps[..], indexes) == Range(wrapped.Length);
    ks.Memoize(indexes);
    PrimingFromEmpty(keyOf, ks.original);
  }

  /** One call an external in-place comparison sort makes on the adapter. */
  datatype SortCall = LessCall(i: int, j: int) | SwapCall(i: int, j: int)

  /** Performs one sort call: a Less gives its answer, a Swap gives none. */
  method Step<T, K, E>(ks: KeySortable<T, K, E>, call: SortCall) returns (answer: Option<bool>)
    requires ks.Valid() && 0 <= call.i < ks.Len() && 0 <= call.j < ks.Len()
    modifies ks, ks.swaps, ks.wrapped
    ensures ks.Valid()
    ensures answer.Some? <==> call.LessCall?
    ensures forall x :: x in old(ks.memo) ==> x in ks.memo && ks.memo[x] == old(ks.memo[x])
    ensures forall x :: x in old(ks.errors) ==> x in ks.errors && ks.errors[x] == old(ks.errors[x])
    ensures old(|ks.errors|) > 0 && answer.Some? ==> !answer.value
    ensures OnlyFreshCalls(old(ks.keyCalls), ks.keyCalls, old(ks.memo))
    ensures old(ks.Primed()) ==> ks.Primed() && ks.State() == old(ks.State())
  {
    match call {
      case LessCall(i, j) =>
        var b := ks.Less(i, j);
        answer := Some(b);
      case SwapCall(i, j) =>
        ks.Swap(i, j);
        answer := None;
    }
  }

  /**
   * An external sort, seen only through the calls it makes: any sequence of
   * Less and Swap on valid positions, answered by the Less answers in call
   * order (none for a Swap). The adapter stays valid, memoised keys and
   * recorded errors are never lost, once any error is recorded every
   * answer is false, and on a primed adapter no wrapped Key call happens at
   * all (what each Less then answers is stated by Less itself).
   */
  method RunSort<T, K, E>(ks: KeySortable<T, K, E>, calls: seq<SortCall>) returns (answers: seq<Option<bool>>)
    requires ks.Valid()
    requires forall k :: 0 <= k < |calls| ==> 0 <= calls[k].i < ks.Len() && 0 <= calls[k].j < ks.Len()
    modifies ks, ks.swaps, ks.wrapped
    ensures ks.Valid()
    ensures |answers| == |calls|
    ensures forall k :: 0 <= k < |calls| ==> (answers[k].Some? <==> calls[k].LessCall?)
    ensures forall x :: x in old(ks.memo) ==> x in ks.memo && ks.memo[x] == old(ks.memo[x])
    ensures forall x :: x in old(ks.errors) ==> x in ks.errors && ks.errors[x] == old(ks.errors[x])
    ensures old(|ks.errors|) > 0 ==> forall k :: 0 <= k < |answers| ==> answers[k] != Some(true)
    ensures OnlyFreshCalls(old(ks.keyCalls), ks.keyCalls, old(ks.memo))
    ensures forall x :: x in old(ks.memo) ==> Count(ks.keyCalls, x) == Count(old(ks.keyCalls), x)
    ensures old(ks.Primed()) ==> ks.Primed() && ks.State() == old(ks.State())
  {
    answers := [];
    var k := 0;
    while k < |calls|
      invariant 0 <= k <= |calls| && |answers| == k
      invariant ks.Valid() && ks.Len() == old(ks.Len())
      invariant forall m :: 0 <= m < k ==> (answers[m].Some? <==> calls[m].LessCall?)
      invariant forall x :: x in old(ks.memo) ==> x in ks.memo && ks.memo[x] == old(ks.memo[x])
      invariant forall x :: x in old(ks.errors) ==> x in ks.errors && ks.errors[x] == old(ks.errors[x])
      invariant old(|ks.errors|) > 0 ==> |ks.errors| > 0 && forall m :: 0 <= m < k ==> answers[m] != Some(true)
      invariant OnlyFreshCalls(old(ks.keyCalls), ks.keyCalls, old(ks.memo))
      invariant old(ks.Primed()) ==> ks.Primed() && ks.State() == old(ks.State())
    {
      var answer := Step(ks, calls[k]);
      answers := answers + [answer];
      k := k + 1;
    }
    forall x | x in old(ks.memo)
      ensures Count(ks.keyCalls, x) == Count(old(ks.keyCalls), x)
    {
      MemoisedNotRecomputed(old(ks.keyCalls), ks.keyCalls, old(ks.memo), x);
    }
  }
}
