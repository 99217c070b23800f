/** `MemoryBudget`: bytes reserved against a limit by compare-and-swap, on 64-bit counters. */
module Budget {
  import opened Arith
  import opened Wrappers

  /** Arithmetic of `size_t`. */
  function Wrap(x: int): (r: nat)
    ensures r < TWO_64
  {
    x % TWO_64
  }

  /** Does a request fit, by the test of the original, whose sum may wrap? */
  predicate Fits(used: nat, request: nat, max: nat) {
    Wrap(used + request) <= max
  }

  class MemoryBudget {
    var maxBytes: nat
    var usedBytes: nat

    ghost predicate Valid()
      reads this
    {
      maxBytes < TWO_64 && usedBytes < TWO_64
    }

    constructor (maxBytes: nat)
      requires maxBytes < TWO_64
      ensures Valid() && this.maxBytes == maxBytes && usedBytes == 0
    {
      this.maxBytes, usedBytes := maxBytes, 0;
    }

    /** The retry loop, with no other thread at work but any number of spurious failures. */
    method TryReserve(request: nat) returns (ok: bool)
      requires Valid() && request < TWO_64
      modifies this`usedBytes
      ensures Valid() && ok == (maxBytes == 0 || Fits(old(usedBytes), request, maxBytes))
      ensures usedBytes == if ok then Wrap(old(usedBytes) + request) else old(usedBytes)
    {
      if maxBytes == 0 {
        usedBytes := Wrap(usedBytes + request);
        return true;
      }
      var spurious: nat := *;
      var used := usedBytes;
      while true
        invariant used == usedBytes == old(usedBytes)
        decreases spurious
      {
        if Wrap(used + request) > maxBytes {
          return false;
        }
        if spurious == 0 && usedBytes == used {
          usedBytes := Wrap(used + request);
          return true;
        }
        used, spurious := usedBytes, spurious - 1;
      }
    }

    method Release(bytes: nat)
      requires Valid()
      modifies this`usedBytes
      ensures Valid() && usedBytes == Wrap(old(usedBytes) - bytes)
    {
      usedBytes := Wrap(usedBytes - bytes);
    }

    /** A growing update reserves the difference, a shrinking one releases it. */
    method TryUpdate(oldSize: nat, newSize: nat) returns (ok: bool)
      requires Valid() && oldSize < TWO_64 && newSize < TWO_64
      modifies this`usedBytes
      ensures Valid()
              && ok == (newSize <= oldSize || maxBytes == 0 || Fits(old(usedBytes), newSize - oldSize, maxBytes))
      ensures usedBytes == if ok then Wrap(old(usedBytes) + newSize - oldSize) else old(usedBytes)
    {
      if oldSize < newSize {
        ok := TryReserve(newSize - oldSize);
      } else {
        if oldSize > newSize {
          Release(oldSize - newSize);
        }
        ok := true;
      }
    }

    method SetMaxBytes(max: nat)
      requires Valid() && max < TWO_64
      modifies this`maxBytes
      ensures Valid() && maxBytes == max
    {
      maxBytes := max;
    }

    method Reset()
      requires Valid()
      modifies this`usedBytes
      ensures Valid() && usedBytes == 0
    {
      usedBytes := 0;
    }
  }

  // ---------------------------------------------------------------- any number of threads

  /** Where a thread is in `try_reserve`: outside it, or between its load and its next compare-and-swap. */
  datatype Local = Outside | Trying(request: nat, seen: nat)

  /** The shared counter, the threads, and two counters that no code has: bytes granted and bytes released. */
  datatype State = State(used: nat, threads: seq<Local>, granted: nat, released: nat)

  /** One atomic action of one thread. */
  datatype Step =
    | Load(t: nat, request: nat)
    | FetchAdd(t: nat, request: nat)
    | Reject(t: nat)
    | SwapSucceeds(t: nat)
    | SwapFails(t: nat)
    | FetchSub(t: nat, bytes: nat)

  function Start(n: nat): State {
    State(0, seq(n, _ => Outside), 0, 0)
  }

  /** When an action can happen. A compare-and-swap can fail even when the counter is as seen; it succeeds only then.
      Only bytes that are held are released. */
  predicate Enabled(s: State, step: Step, max: nat) {
    && step.t < |s.threads|
    && match step
       case Load(t, request) => max != 0 && s.threads[t].Outside? && request < TWO_64
       case FetchAdd(t, request) => max == 0 && s.threads[t].Outside? && request < TWO_64
       case Reject(t) => s.threads[t].Trying? && !Fits(s.threads[t].seen, s.threads[t].request, max)
       case SwapSucceeds(t) =>
         s.threads[t].Trying? && Fits(s.threads[t].seen, s.threads[t].request, max) && s.threads[t].seen == s.used
       case SwapFails(t) => s.threads[t].Trying? && Fits(s.threads[t].seen, s.threads[t].request, max)
       case FetchSub(t, bytes) => s.threads[t].Outside? && s.released + bytes <= s.granted
  }

  function Next(s: State, step: Step, max: nat): State
    requires Enabled(s, step, max)
  {
    match step
    case Load(t, request) => s.(threads := s.threads[t := Trying(request, s.used)])
    case FetchAdd(t, request) => s.(used := Wrap(s.used + request), granted := s.granted + request)
    case Reject(t) => s.(threads := s.threads[t := Outside])
    case SwapSucceeds(t) =>
      var request := s.threads[t].request;
      s.(used := Wrap(s.used + request), threads := s.threads[t := Outside], granted := s.granted + request)
    case SwapFails(t) => s.(threads := s.threads[t := s.threads[t].(seen := s.used)])
    case FetchSub(t, bytes) => s.(used := Wrap(s.used - bytes), released := s.released + bytes)
  }

  /** The state an interleaving reaches, if every action is enabled in its turn. */
  function Run(s: State, steps: seq<Step>, max: nat): Option<State>
    decreases |steps|
  {
    if steps == [] then Some(s)
    else if Enabled(s, steps[0], max) then Run(Next(s, steps[0], max), steps[1..], max)
    else None
  }

  ghost predicate Balanced(s: State) {
    s.used == Wrap(s.granted - s.released)
  }

  lemma WrapStep(x: int, y: int)
    ensures Wrap(Wrap(x) + y) == Wrap(x + y)
  {
  }

  lemma {:induction false} BalancedKept(s: State, steps: seq<Step>, max: nat)
    requires Balanced(s) && Run(s, steps, max).Some?
    ensures Balanced(Run(s, steps, max).value)
    decreases |steps|
  {
    if steps != [] {
      var n := Next(s, steps[0], max);
      WrapStep(s.granted - s.released, n.granted - n.released - (s.granted - s.released));
      BalancedKept(n, steps[1..], max);
    }
  }

  /** In every interleaving, whatever the limit and the requests, the counter is what was granted less what was
      released, reduced to 64 bits. */
  lemma AlwaysBalanced(n: nat, steps: seq<Step>, max: nat)
    requires Run(Start(n), steps, max).Some?
    ensures Balanced(Run(Start(n), steps, max).value)
  {
    BalancedKept(Start(n), steps, max);
  }

  /** No request together with the limit overflows. */
  ghost predicate RequestsFit(steps: seq<Step>, max: nat) {
    forall i :: 0 <= i < |steps| && steps[i].Load? ==> steps[i].request + max < TWO_64
  }

  /** The counter is exact and within the limit, and every thread under way saw such a counter. */
  ghost predicate Within(s: State, max: nat) {
    && s.used == s.granted - s.released && s.used <= max
    && forall t :: 0 <= t < |s.threads| && s.threads[t].Trying? ==>
         s.threads[t].seen <= max && s.threads[t].request + max < TWO_64
  }

  lemma WithinStep(s: State, step: Step, max: nat)
    requires 0 < max < TWO_64 && Within(s, max) && Enabled(s, step, max)
    requires step.Load? ==> step.request + max < TWO_64
    ensures Within(Next(s, step, max), max)
  {
  }

  lemma {:induction false} WithinKept(s: State, steps: seq<Step>, max: nat)
    requires 0 < max < TWO_64 && Within(s, max) && RequestsFit(steps, max) && Run(s, steps, max).Some?
    ensures Within(Run(s, steps, max).value, max)
    decreases |steps|
  {
    if steps != [] {
      WithinStep(s, steps[0], max);
      assert RequestsFit(steps[1..], max);
      WithinKept(Next(s, steps[0], max), steps[1..], max);
    }
  }

  /** Under a fixed limit, in every interleaving of any number of threads, the bytes used never exceed the limit
      and are exactly the bytes granted less the bytes released. */
  lemma NeverAboveLimit(n: nat, steps: seq<Step>, max: nat)
    requires 0 < max < TWO_64 && RequestsFit(steps, max) && Run(Start(n), steps, max).Some?
    ensures var s := Run(Start(n), steps, max).value;
            s.used <= max && s.used == s.granted - s.released
  {
    WithinKept(Start(n), steps, max);
  }

  /** A granted request is counted exactly precisely when its sum does not wrap. */
  lemma GrantExactly(s: State, t: nat, max: nat)
    requires Enabled(s, SwapSucceeds(t), max) && s.used == s.granted - s.released
    ensures var n := Next(s, SwapSucceeds(t), max);
            n.used == n.granted - n.released <==> s.used + s.threads[t].request < TWO_64
  {
  }

  /** A load and a failed swap both leave the thread with the counter as it is: unless another thread acts, its
      next step grants the request if it fits and rejects it if it does not. */
  lemma RetryDecides(s: State, step: Step, max: nat)
    requires (step.Load? || step.SwapFails?) && Enabled(s, step, max)
    ensures var n, request := Next(s, step, max), if step.Load? then step.request else s.threads[step.t].request;
            && n.used == s.used
            && (Enabled(n, SwapSucceeds(step.t), max) <==> Fits(s.used, request, max))
            && (Enabled(n, Reject(step.t), max) <==> !Fits(s.used, request, max))
  {
  }

  /** A request that overflows is granted although it exceeds the limit, and the counter forgets bytes that are held. */
  lemma OverflowIsGranted()
    ensures var steps := [Load(0, 1), SwapSucceeds(0), Load(0, TWO_64 - 1), SwapSucceeds(0)];
            && Run(Start(1), steps, 10).Some?
            && Run(Start(1), steps, 10).value.used == 0
            && Run(Start(1), steps, 10).value.granted == TWO_64
  {
    var s0 := Start(1);
    var s1 := Next(s0, Load(0, 1), 10);
    var s2 := Next(s1, SwapSucceeds(0), 10);
    var s3 := Next(s2, Load(0, TWO_64 - 1), 10);
    var s4 := Next(s3, SwapSucceeds(0), 10);
    assert Run(s4, [], 10) == Some(s4);
    assert Run(s3, [SwapSucceeds(0)], 10) == Some(s4);
    assert Run(s2, [Load(0, TWO_64 - 1), SwapSucceeds(0)], 10) == Some(s4);
    assert Run(s1, [SwapSucceeds(0), Load(0, TWO_64 - 1), SwapSucceeds(0)], 10) == Some(s4);
  }
}
