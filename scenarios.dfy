/**
 * Concrete runs of the keysort adapter on small collections of ints whose
 * key is the int itself, showing what the code does on them.
 */
module KeysortScenarios {
  import opened Permutation
  import opened MemoCache
  import opened Keysort

  function IntKey(v: int): (out: KeyOutcome<int, string>)
  {
    KeyOutcome(v, None)
  }

  function IntLess(a: int, b: int): (less: bool)
  {
    a < b
  }

  /**
   * Two elements with keys 5 and 3, one Swap(0, 1), then the key at
   * position 0. Unprimed, the wrapped Key is asked for original index 1 and
   * reads the element now at position 1, whose key is 5: not the key 3 of
   * the element that was originally at index 1 and now sits at position 0.
   * Primed before the swap, the answer is 3.
   */
  method SwapThenKey() returns (unprimed: int, primed: int)
    ensures unprimed == 5
    ensures primed == 3
  {
    var a := new int[2];
    a[0], a[1] := 5, 3;
    var ks := new KeySortable(a, IntKey, IntLess);
    ks.Swap(0, 1);
    unprimed := ks.Key(0);

    var b := new int[2];
    b[0], b[1] := 5, 3;
    var ps := PrimedKeysort(b, IntKey, IntLess);
    ps.Swap(0, 1);
    primed := ps.Key(0);
  }

  /** The key 12 fails: the key function reports an error and the sentinel value 0. */
  function FailingOn12(v: int): (out: KeyOutcome<int, string>)
  {
    if v == 12 then KeyOutcome(0, Some("failed")) else KeyOutcome(v, None)
  }

  /** The six elements of the example program, keys 13, 11, 9, 12, 8, 10. */
  method SixElements() returns (a: array<int>)
    ensures fresh(a) && a[..] == [13, 11, 9, 12, 8, 10]
  {
    a := new int[6];
    a[0] := 13; a[1] := 11; a[2] := 9; a[3] := 12; a[4] := 8; a[5] := 10;
    assert a[..] == [13, 11, 9, 12, 8, 10];
  }

  /** Primes the adapter over six elements with keys 13, 11, 9, 12, 8, 10. */
  method PrimeSix() returns (ks: KeySortable<int, int, string>)
    ensures fresh(ks) && ks.Valid() && ks.Primed()
    ensures ks.keyOf == FailingOn12 && ks.wrapped.Length == 6 && ks.wrapped[3] == 12
    ensures ks.errors == map[3 := "failed"]
    ensures ks.keyCalls == Range(6)
  {
    var a := SixElements();
    ks := PrimedKeysort(a, FailingOn12, IntLess);
    assert ks.errors == map[3 := "failed"] by {
      OnlyIndex3Fails(ks.State(), ks.original);
    }
  }

  /** On keys 13, 11, 9, 12, 8, 10 the recorded errors are exactly the failure at index 3. */
  lemma OnlyIndex3Fails(c: Cache<int, string>, elems: seq<int>)
    requires elems == [13, 11, 9, 12, 8, 10]
    requires forall x :: 0 <= x < |elems| ==> x in c.memo
    requires Coherent(c, |elems|) && ErrorsFaithful(c, FailingOn12, elems)
    ensures c.errors == map[3 := "failed"]
  {
    assert c.errors.Keys == {3} by {
      forall x | x in c.errors
        ensures x == 3
      {
        assert x in c.memo && FailingOn12(elems[x]).err.Some?;
      }
      assert 3 in c.memo && FailingOn12(elems[3]).err.Some?;
    }
    assert FailingOn12(elems[3]).err == Some(c.errors[3]);
  }

  /**
   * Six elements with keys 13, 11, 9, 12, 8, 10, whose key computation
   * fails for the element at index 3. Priming calls the wrapped Key six
   * times, once per index, and Errors() then names index 3 alone.
   * ErroredIndexes sends position 0 rather than index 3. RetryFailed
   * leaves no error but resolves nothing: index 3 keeps the sentinel 0
   * and no seventh call is made.
   */
  method FailingIdentity()
    returns (before: Option<PrimingError<string>>, sent: seq<int>, after: Option<PrimingError<string>>,
             sentinel: int, ghost calls: seq<int>)
    ensures before == Some(PrimingError(map[3 := "failed"]))
    ensures sent == [0]
    ensures after == None
    ensures sentinel == 0
    ensures calls == Range(6)
  {
    var ks := PrimeSix();
    before := ks.Errors();
    sent := ks.ErroredIndexes();
    ks.RetryFailed();
    after := ks.Errors();
    sentinel := ks.Key(3);
    calls := ks.keyCalls;
  }
}
