/** The cyclic cursor of robot.py: a fixed sequence of candidate values and
    an index into it that moves forward or backward one place at a time,
    wrapping around at both ends. */
module Robot {

  /** The index after one step forward in a sequence of length `n`
      (Python's `(index + 1) % len(...)`): one place on, and back to 0
      after the last place. */
  function Succ(i: int, n: int): (r: int)
    requires 0 <= i < n
    ensures 0 <= r < n
    ensures r == if i == n - 1 then 0 else i + 1
  {
    (i + 1) % n
  }

  /** The index after one step backward (Python's `(index - 1) % len(...)`,
      whose result has the sign of the divisor, like Dafny's `%` here):
      one place back, and round to the last place from 0. */
  function Pred(i: int, n: int): (r: int)
    requires 0 <= i < n
    ensures 0 <= r < n
    ensures r == if i == 0 then n - 1 else i - 1
  {
    (i - 1) % n
  }

  /** The index after `k` steps forward. */
  function SuccIter(i: int, n: int, k: nat): (r: int)
    requires 0 <= i < n
    ensures 0 <= r < n
  {
    if k == 0 then i else Succ(SuccIter(i, n, k - 1), n)
  }

  /** A step back undoes a step forward. */
  lemma PredAfterSucc(i: int, n: int)
    requires 0 <= i < n
    ensures Pred(Succ(i, n), n) == i
  {
  }

  /** A step forward undoes a step back. */
  lemma SuccAfterPred(i: int, n: int)
    requires 0 <= i < n
    ensures Succ(Pred(i, n), n) == i
  {
  }

  /** Steps forward that do not reach the end just add to the index. */
  lemma {:induction false} SuccIterNoWrap(i: int, n: int, k: nat)
    requires 0 <= i && i + k < n
    ensures SuccIter(i, n, k) == i + k
  {
    if k > 0 {
      SuccIterNoWrap(i, n, k - 1);
    }
  }

  /** `a` steps and then `b` steps are `a + b` steps. */
  lemma {:induction false} SuccIterAdd(i: int, n: int, a: nat, b: nat)
    requires 0 <= i < n
    ensures SuccIter(i, n, a + b) == SuccIter(SuccIter(i, n, a), n, b)
  {
    if b > 0 {
      SuccIterAdd(i, n, a, b - 1);
    }
  }

  /** Stepping forward as many times as the sequence is long comes back to
      the starting index. */
  lemma FullTurnReturns(i: int, n: int)
    requires 0 <= i < n
    ensures SuccIter(i, n, n) == i
  {
    SuccIterNoWrap(i, n, n - 1 - i);
    assert SuccIter(i, n, n - i) == 0;
    SuccIterNoWrap(0, n, i);
    SuccIterAdd(i, n, n - i, i);
  }

  /** In a one-element sequence both steps stay on index 0, so the current
      value never changes. */
  lemma SingletonStaysPut(i: int)
    requires 0 <= i < 1
    ensures Succ(i, 1) == 0 && Pred(i, 1) == 0
  {
  }

  /** `CyclicVariable`: a sequence fixed at construction and a mutable index
      into it. */
  class CyclicVariable<T> {
    var rangeVector: seq<T>
    var index: int

    /** The index points into the sequence; an empty sequence (which the
        constructor accepts) leaves the index at its initial 0. */
    ghost predicate Valid()
      reads this
    {
      0 <= index && (index < |rangeVector| || (rangeVector == [] && index == 0))
    }

    /** Keeps the given sequence and starts at index 0. */
    constructor (rangeVector: seq<T>)
      ensures Valid()
      ensures this.rangeVector == rangeVector && index == 0
    {
      this.rangeVector := rangeVector;
      index := 0;
    }

    /** The element under the cursor; indexing an empty sequence fails. */
    method GetValue() returns (v: T)
      requires Valid() && rangeVector != []
      ensures v == rangeVector[index]
      ensures v in rangeVector
    {
      v := rangeVector[index];
    }

    /** Moves the cursor one place forward, wrapping from the last place to
        the first; an empty sequence fails with a division by zero. */
    method Increment()
      requires Valid() && rangeVector != []
      modifies this`index
      ensures Valid()
      ensures index == Succ(old(index), |rangeVector|)
      ensures rangeVector == old(rangeVector)
    {
      index := (index + 1) % |rangeVector|;
    }

    /** Moves the cursor one place back, wrapping from the first place to
        the last; an empty sequence fails with a division by zero. */
    method Decrement()
      requires Valid() && rangeVector != []
      modifies this`index
      ensures Valid()
      ensures index == Pred(old(index), |rangeVector|)
      ensures rangeVector == old(rangeVector)
    {
      index := (index - 1) % |rangeVector|;
    }
  }
}
