/**
  The lock-free conditional add of rt-thread/include/rtatomic.h: a load, then a compare-exchange
  retried until it succeeds or the cell holds the forbidden value. First the code on one cell, then
  every interleaving of any number of threads that run it.
 */
module AtomicAdd {
  import opened Words

  /** Addition wraps around. */
  function Plus(a: word, b: word): (r: word)
    ensures r == (a + b) % TWO_TO_32
  {
    if a + b < TWO_TO_32 then a + b else a + b - TWO_TO_32
  }

  // ----- The code -----

  /**
    Where a thread is inside the conditional add of `a` unless the cell holds `u`: about to load,
    or about to compare-exchange the value `c` it last saw, which was not `u`.
   */
  datatype Thread = Idle | Entered(a: word, u: word) | Trying(a: word, u: word, c: word)

  /** What one atomic step did. */
  datatype Effect = Quiet | CasFailed | Returned(a: word, u: word, result: word)

  /** One atomic step of one thread, up to its next access of the cell. */
  function ThreadStep(cell: word, th: Thread): (word, Thread, Effect, bool)
  {
    match th
    case Idle => (cell, th, Quiet, false)
    case Entered(a, u) => (cell, Saw(a, u, cell).0, Saw(a, u, cell).1, false)
    case Trying(a, u, c) =>
      if cell == c then (Plus(c, a), Idle, Returned(a, u, c), false)
      else (cell, Saw(a, u, cell).0, Saw(a, u, cell).1, true)
  }

  /** The loop test on a value just read: leave with it, or try to exchange it. */
  function Saw(a: word, u: word, c: word): (Thread, Effect) {
    if c == u then (Idle, Returned(a, u, c)) else (Trying(a, u, c), Quiet)
  }

  class AtomicCell {
    var value: word

    constructor (v: word)
      ensures value == v
    {
      value := v;
    }

    /** The soft compare-exchange: with interrupts off, one atomic step. */
    method CompareExchange(expected: word, desired: word) returns (ok: bool, seen: word)
      modifies this
      ensures ok <==> old(value) == expected
      ensures seen == old(value)
      ensures value == if ok then desired else old(value)
    {
      seen := expected;
      if value != seen {
        seen, ok := value, false;
      } else {
        value, ok := desired, true;
      }
    }

    /** A thread advances by one access of the cell. */
    method Advance(th: Thread) returns (th': Thread, effect: Effect, failed: bool)
      modifies this
      ensures (value, th', effect, failed) == ThreadStep(old(value), th)
    {
      th', effect, failed := th, Quiet, false;
      match th
      case Idle =>
      case Entered(a, u) =>
        th', effect := Saw(a, u, value).0, Saw(a, u, value).1;
      case Trying(a, u, c) =>
        var ok, seen := CompareExchange(c, Plus(c, a));
        if ok {
          th', effect := Idle, Returned(a, u, c);
        } else {
          th', effect, failed := Saw(a, u, seen).0, Saw(a, u, seen).1, true;
        }
    }

    /** The call run without interference. */
    method FetchAddUnless(a: word, u: word) returns (c: word)
      modifies this
      ensures c == old(value)
      ensures value == if c == u then c else Plus(c, a)
    {
      c := value;
      var ok := false;
      while !ok
        invariant c == old(value) && value == if ok then Plus(c, a) else c
        invariant ok ==> c != u
        decreases !ok
      {
        if c == u {
          break;
        }
        ok, c := CompareExchange(c, Plus(c, a));
      }
    }

    method AddUnless(a: word, u: word) returns (added: bool)
      modifies this
      ensures added <==> old(value) != u
      ensures value == if added then Plus(old(value), a) else old(value)
    {
      var c := FetchAddUnless(a, u);
      added := c != u;
    }

    method IncNotZero() returns (added: bool)
      modifies this
      ensures added <==> old(value) != 0
      ensures value == if added then Plus(old(value), 1) else 0
    {
      added := AddUnless(1, 0);
    }
  }

  // ----- Any number of threads -----

  /** A scheduling choice: thread `t` starts a call, or makes its next access of the cell. */
  datatype Choice = Invoke(t: nat, a: word, u: word) | Run(t: nat)

  /** A call that has returned. */
  datatype Call = Call(t: nat, a: word, u: word, result: word)

  /** The shared cell, the threads, the returned calls in order, and the compare-exchange tallies. */
  datatype Machine = Machine(cell: word, threads: seq<Thread>, log: seq<Call>, wins: nat, fails: nat)

  /** A choice that is not enabled changes nothing. */
  function Step(m: Machine, x: Choice): Machine {
    if x.t >= |m.threads| then m else
    match x
    case Invoke(t, a, u) => if m.threads[t].Idle? then m.(threads := m.threads[t := Entered(a, u)]) else m
    case Run(t) =>
      var (cell, th, effect, failed) := ThreadStep(m.cell, m.threads[t]);
      Machine(cell, m.threads[t := th],
              if effect.Returned? then m.log + [Call(t, effect.a, effect.u, effect.result)] else m.log,
              if m.threads[t].Trying? && !failed then m.wins + 1 else m.wins,
              if failed then m.fails + 1 else m.fails)
  }

  function Exec(m: Machine, xs: seq<Choice>): Machine {
    if xs == [] then m else Step(Exec(m, xs[..|xs| - 1]), xs[|xs| - 1])
  }

  predicate Fresh(m: Machine) {
    (forall t :: 0 <= t < |m.threads| ==> m.threads[t].Idle?) && m.log == [] && m.wins == 0 && m.fails == 0
  }

  // ----- Each call takes effect at one atomic step -----

  /** The conditional add as one indivisible operation. */
  function Atomically(v: word, a: word, u: word): word {
    if v == u then v else Plus(v, a)
  }

  /** The cell after the calls, one at a time. */
  function Replay(v: word, log: seq<Call>): word {
    if log == [] then v
    else Atomically(Replay(v, log[..|log| - 1]), log[|log| - 1].a, log[|log| - 1].u)
  }

  /** Every call returns the value the cell has when its turn comes. */
  predicate Legal(v: word, log: seq<Call>) {
    log == [] || (Legal(v, log[..|log| - 1]) && log[|log| - 1].result == Replay(v, log[..|log| - 1]))
  }

  /** A thread only ever tries to exchange a value other than its forbidden one. */
  predicate TriesAllowed(m: Machine) {
    forall t :: 0 <= t < |m.threads| && m.threads[t].Trying? ==> m.threads[t].c != m.threads[t].u
  }

  /** The sum of the addends of the calls that did not return their forbidden value. */
  function Added(log: seq<Call>): word {
    if log == [] then 0
    else Plus(Added(log[..|log| - 1]), if log[|log| - 1].result != log[|log| - 1].u then log[|log| - 1].a else 0)
  }

  /**
    Each call takes effect at one atomic step inside it: the step at which it returns is its
    own thread's, finds the value that the call returns, and leaves what the call as one
    indivisible operation would leave. No other step changes the cell.
   */
  lemma TakesEffectOnReturn(m: Machine, x: Choice)
    requires TriesAllowed(m)
    ensures var n := Step(m, x);
            || (n.log == m.log && n.cell == m.cell)
            || (exists call :: n.log == m.log + [call] && call.t == x.t < |m.threads|
                  && !m.threads[x.t].Idle? && m.threads[x.t].a == call.a && m.threads[x.t].u == call.u
                  && n.threads[x.t].Idle?
                  && call.result == m.cell && n.cell == Atomically(m.cell, call.a, call.u))
  {
    var n := Step(m, x);
    if n.log != m.log {
      assert n.log == m.log + [n.log[|m.log|]];
    }
  }

  /** Run alone, a call takes three steps and does exactly what the conditional add promises. */
  lemma CompletesAlone(m: Machine, t: nat, a: word, u: word)
    requires t < |m.threads| && m.threads[t].Idle?
    ensures var n := Step(Step(Step(m, Invoke(t, a, u)), Run(t)), Run(t));
            && n.cell == (if m.cell == u then u else (m.cell + a) % TWO_TO_32)
            && n.threads == m.threads
            && n.log == m.log + [Call(t, a, u, m.cell)]
            && n.wins == m.wins + (if m.cell == u then 0 else 1) && n.fails == m.fails
  {
    var entered := Step(m, Invoke(t, a, u));
    var tried := Step(entered, Run(t));
    assert entered.threads[t] == Entered(a, u);
    if m.cell == u {
      assert tried.threads[t] == Idle && Step(tried, Run(t)) == tried;
    } else {
      assert tried.threads[t] == Trying(a, u, m.cell);
    }
  }

  /**
    One access by a thread that is trying: the exchange wins exactly when the cell still holds what the
    thread saw. A loser sees the cell's value, and leaves with it if that is the forbidden one.
   */
  lemma TryExactly(m: Machine, t: nat)
    requires t < |m.threads| && m.threads[t].Trying?
    ensures var n, a, u, c := Step(m, Run(t)), m.threads[t].a, m.threads[t].u, m.threads[t].c;
            if m.cell == c then
              && n.cell == (c + a) % TWO_TO_32 && n.threads[t].Idle? && n.log == m.log + [Call(t, a, u, c)]
              && n.wins == m.wins + 1 && n.fails == m.fails
            else
              && n.cell == m.cell && n.wins == m.wins && n.fails == m.fails + 1
              && (if m.cell == u then n.threads[t].Idle? && n.log == m.log + [Call(t, a, u, u)]
                  else n.threads[t] == Trying(a, u, m.cell) && n.log == m.log)
  {}

  /** No call ends silently: a thread becomes idle only with an entry for its call. */
  lemma EndsWithEntry(m: Machine, x: Choice, t: nat)
    requires TriesAllowed(m) && t < |m.threads| && !m.threads[t].Idle? && Step(m, x).threads[t].Idle?
    ensures x == Run(t) && Step(m, x).log == m.log + [Call(t, m.threads[t].a, m.threads[t].u, m.cell)]
  {}

  // ----- Every call that starts returns once or is pending -----

  function Busy(threads: seq<Thread>): nat {
    if threads == [] then 0 else (if threads[0].Idle? then 0 else 1) + Busy(threads[1..])
  }

  lemma {:induction false} BusyUpdate(threads: seq<Thread>, t: nat, th: Thread)
    requires t < |threads|
    ensures Busy(threads[t := th]) == Busy(threads) - (if threads[t].Idle? then 0 else 1) + (if th.Idle? then 0 else 1)
  {
    if t == 0 {
      assert threads[0 := th][1..] == threads[1..];
    } else {
      BusyUpdate(threads[1..], t - 1, th);
      assert threads[t := th][1..] == threads[1..][t - 1 := th];
    }
  }

  lemma {:induction false} NoneBusy(threads: seq<Thread>)
    requires forall t :: 0 <= t < |threads| ==> threads[t].Idle?
    ensures Busy(threads) == 0
  {
    if threads != [] { NoneBusy(threads[1..]); }
  }

  /** A choice that starts a call. */
  predicate IsStart(m: Machine, x: Choice) {
    x.Invoke? && x.t < |m.threads| && m.threads[x.t].Idle?
  }

  /** A choice that makes an exchange. */
  predicate IsAttempt(m: Machine, x: Choice) {
    x.Run? && x.t < |m.threads| && m.threads[x.t].Trying?
  }

  function Starts(m: Machine, xs: seq<Choice>): nat {
    if xs == [] then 0
    else
      var before, x := xs[..|xs| - 1], xs[|xs| - 1];
      Starts(m, before) + if IsStart(Exec(m, before), x) then 1 else 0
  }

  function Attempts(m: Machine, xs: seq<Choice>): nat {
    if xs == [] then 0
    else
      var before, x := xs[..|xs| - 1], xs[|xs| - 1];
      Attempts(m, before) + if IsAttempt(Exec(m, before), x) then 1 else 0
  }

  /** The calls that added. */
  function Adders(log: seq<Call>): nat {
    if log == [] then 0
    else Adders(log[..|log| - 1]) + if log[|log| - 1].result != log[|log| - 1].u then 1 else 0
  }

  lemma StepCounts(m: Machine, x: Choice)
    requires TriesAllowed(m)
    ensures var n := Step(m, x);
            && |n.log| + Busy(n.threads) == |m.log| + Busy(m.threads) + (if IsStart(m, x) then 1 else 0)
            && n.wins + n.fails == m.wins + m.fails + (if IsAttempt(m, x) then 1 else 0)
            && Adders(n.log) - n.wins == Adders(m.log) - m.wins
  {
    var n := Step(m, x);
    if x.t < |m.threads| {
      BusyUpdate(m.threads, x.t, n.threads[x.t]);
      assert n.threads == m.threads[x.t := n.threads[x.t]];
    }
    if n.log != m.log {
      assert n.log[..|n.log| - 1] == m.log;
    }
  }

  /**
    In every interleaving each call that starts has returned exactly once or is pending, each exchange
    has won or failed, and the exchanges that won are as many as the returned calls that added.
   */
  lemma {:induction false} EveryCallCounted(m: Machine, xs: seq<Choice>)
    requires Fresh(m)
    ensures var n := Exec(m, xs);
            && Starts(m, xs) == |n.log| + Busy(n.threads)
            && Attempts(m, xs) == n.wins + n.fails
            && Adders(n.log) == n.wins
  {
    if xs == [] {
      NoneBusy(m.threads);
    } else {
      EveryCallCounted(m, xs[..|xs| - 1]);
      Linearizable(m, xs[..|xs| - 1]);
      StepCounts(Exec(m, xs[..|xs| - 1]), xs[|xs| - 1]);
    }
  }

  lemma StepLinearizable(m: Machine, x: Choice, v: word)
    requires TriesAllowed(m) && Legal(v, m.log) && Replay(v, m.log) == m.cell
    ensures var n := Step(m, x); TriesAllowed(n) && Legal(v, n.log) && Replay(v, n.log) == n.cell
  {
    var n := Step(m, x);
    if n.log != m.log {
      assert n.log[..|n.log| - 1] == m.log;
    }
  }

  /**
    Linearizability: in every interleaving the returned calls, in the order of the steps at which
    they returned, are a legal one-at-a-time history that leaves the cell as it is.
   */
  lemma {:induction false} Linearizable(m: Machine, xs: seq<Choice>)
    requires Fresh(m)
    ensures var n := Exec(m, xs); TriesAllowed(n) && Legal(m.cell, n.log) && Replay(m.cell, n.log) == n.cell
  {
    if xs != [] {
      Linearizable(m, xs[..|xs| - 1]);
      StepLinearizable(Exec(m, xs[..|xs| - 1]), xs[|xs| - 1], m.cell);
    }
  }

  lemma {:induction false} LegalAdds(v: word, log: seq<Call>)
    requires Legal(v, log)
    ensures Replay(v, log) == Plus(v, Added(log))
  {
    if log != [] { LegalAdds(v, log[..|log| - 1]); }
  }

  /** The cell is its first value plus the addends of exactly the calls that returned "not u". */
  lemma Conservation(m: Machine, xs: seq<Choice>)
    requires Fresh(m)
    ensures Exec(m, xs).cell == Plus(m.cell, Added(Exec(m, xs).log))
  {
    Linearizable(m, xs);
    LegalAdds(m.cell, Exec(m, xs).log);
  }

  /** Only calls with forbidden value `u` are pending. */
  predicate AllUnless(m: Machine, u: word) {
    forall t :: 0 <= t < |m.threads| && !m.threads[t].Idle? ==> m.threads[t].u == u
  }

  /** A cell that has reached the value that every caller forbids keeps it: a count at zero is never revived. */
  lemma {:induction false} NeverRevived(m: Machine, xs: seq<Choice>, u: word)
    requires TriesAllowed(m) && AllUnless(m, u) && m.cell == u
    requires forall k :: 0 <= k < |xs| && xs[k].Invoke? ==> xs[k].u == u
    ensures var n := Exec(m, xs); TriesAllowed(n) && AllUnless(n, u) && n.cell == u
  {
    if xs != [] {
      NeverRevived(m, xs[..|xs| - 1], u);
    }
  }

  // ----- Failed exchanges are paid for by successful ones -----

  /** A thread whose next exchange would fail. */
  predicate IsStale(cell: word, th: Thread) {
    th.Trying? && th.c != cell
  }

  function Stale(cell: word, threads: seq<Thread>): nat {
    if threads == [] then 0
    else (if IsStale(cell, threads[0]) then 1 else 0) + Stale(cell, threads[1..])
  }

  lemma {:induction false} StaleUpdate(cell: word, threads: seq<Thread>, t: nat, th: Thread)
    requires t < |threads|
    ensures Stale(cell, threads[t := th]) == Stale(cell, threads)
      - (if IsStale(cell, threads[t]) then 1 else 0) + (if IsStale(cell, th) then 1 else 0)
  {
    if t == 0 {
      assert threads[0 := th][1..] == threads[1..];
    } else {
      StaleUpdate(cell, threads[1..], t - 1, th);
      assert threads[t := th][1..] == threads[1..][t - 1 := th];
    }
  }

  lemma {:induction false} StaleAtMostAll(cell: word, threads: seq<Thread>)
    ensures Stale(cell, threads) <= |threads|
  {
    if threads != [] { StaleAtMostAll(cell, threads[1..]); }
  }

  /** With one thread not stale, at most the others are. */
  lemma {:induction false} StaleAtMostOthers(cell: word, threads: seq<Thread>, t: nat)
    requires t < |threads| && !IsStale(cell, threads[t])
    ensures Stale(cell, threads) <= |threads| - 1
  {
    if t == 0 {
      StaleAtMostAll(cell, threads[1..]);
    } else {
      StaleAtMostOthers(cell, threads[1..], t - 1);
    }
  }

  /** The threads that will fail next count as failures already. */
  predicate Paid(m: Machine) {
    m.fails + Stale(m.cell, m.threads) <= (|m.threads| - 1) * m.wins
  }

  lemma StepPaid(m: Machine, x: Choice)
    requires m.threads != [] && Paid(m)
    ensures Paid(Step(m, x)) && |Step(m, x).threads| == |m.threads|
  {
    var n := Step(m, x);
    if x.t < |m.threads| {
      StaleUpdate(m.cell, m.threads, x.t, n.threads[x.t]);
      StaleAtMostOthers(n.cell, n.threads[x.t := Idle], x.t);
      assert n.threads == m.threads[x.t := n.threads[x.t]];
      assert (|m.threads| - 1) * (m.wins + 1) == (|m.threads| - 1) * m.wins + (|m.threads| - 1);
      if n.wins == m.wins + 1 {
        assert n.threads[x.t := Idle] == n.threads;
      }
    }
  }

  lemma {:induction false} NoneStale(cell: word, threads: seq<Thread>)
    requires forall t :: 0 <= t < |threads| ==> threads[t].Idle?
    ensures Stale(cell, threads) == 0
  {
    if threads != [] { NoneStale(cell, threads[1..]); }
  }

  lemma {:induction false} RunPaid(m: Machine, xs: seq<Choice>)
    requires Fresh(m) && m.threads != []
    ensures Paid(Exec(m, xs)) && |Exec(m, xs).threads| == |m.threads|
  {
    if xs == [] {
      NoneStale(m.cell, m.threads);
    } else {
      RunPaid(m, xs[..|xs| - 1]);
      StepPaid(Exec(m, xs[..|xs| - 1]), xs[|xs| - 1]);
    }
  }

  /** Lock freedom: with n threads, at most n - 1 exchanges fail for each one that succeeds. */
  lemma FailuresBounded(m: Machine, xs: seq<Choice>)
    requires Fresh(m) && m.threads != []
    ensures Exec(m, xs).fails <= (|m.threads| - 1) * Exec(m, xs).wins
  {
    RunPaid(m, xs);
  }
}
