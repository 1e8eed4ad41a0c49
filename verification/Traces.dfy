/** Sequences in which each element leads to the next. */
module Traces {

  ghost predicate LeadsOn<T>(next: (T, T) -> bool, trace: seq<T>, i: nat)
    requires i < |trace| - 1
  {
    next(trace[i], trace[i + 1])
  }

  ghost predicate IsTrace<T>(next: (T, T) -> bool, trace: seq<T>) {
    forall i | 0 <= i < |trace| - 1 :: LeadsOn(next, trace, i)
  }

  lemma Prepend<T>(next: (T, T) -> bool, first: T, trace: seq<T>)
    requires IsTrace(next, trace) && (trace == [] || next(first, trace[0]))
    ensures IsTrace(next, [first] + trace)
  {
    forall i | 0 <= i < |trace|
      ensures LeadsOn(next, [first] + trace, i)
    {
      assert i > 0 ==> LeadsOn(next, trace, i - 1);
    }
  }

  lemma Rest<T>(next: (T, T) -> bool, trace: seq<T>)
    requires IsTrace(next, trace) && trace != []
    ensures IsTrace(next, trace[1..])
    ensures |trace| > 1 ==> next(trace[0], trace[1])
  {
    forall i | 0 <= i < |trace[1..]| - 1
      ensures LeadsOn(next, trace[1..], i)
    {
      assert LeadsOn(next, trace, i + 1);
    }
    assert |trace| > 1 ==> LeadsOn(next, trace, 0);
  }

  lemma Append<T>(next: (T, T) -> bool, trace: seq<T>, last: T)
    requires IsTrace(next, trace) && (trace == [] || next(trace[|trace| - 1], last))
    ensures IsTrace(next, trace + [last])
  {
    forall i | 0 <= i < |trace|
      ensures LeadsOn(next, trace + [last], i)
    {
      assert i < |trace| - 1 ==> LeadsOn(next, trace, i);
    }
  }

  lemma Three<T>(next: (T, T) -> bool, a: T, b: T, c: T)
    requires next(a, b) && next(b, c)
    ensures IsTrace(next, [a, b, c])
  {
  }

  /** A countdown continues a trace. */
  lemma {:induction false} CountDown<T>(next: (T, T) -> bool, trace: seq<T>, at: nat -> T, n: nat)
    returns (longer: seq<T>)
    requires trace != [] && IsTrace(next, trace) && trace[|trace| - 1] == at(n)
    requires forall k: nat | k < n :: next(at(k + 1), at(k))
    ensures IsTrace(next, longer) && |longer| == |trace| + n && longer[0] == trace[0]
    decreases n
  {
    if n == 0 {
      longer := trace;
    } else {
      assert next(at(n - 1 + 1), at(n - 1));
      Append(next, trace, at(n - 1));
      longer := CountDown(next, trace + [at(n - 1)], at, n - 1);
    }
  }
}
