/** The compare-exchange retry loop behind the float atomics, run by any number of threads. */
module AtomicFloat {
  import opened FloatBits
  import opened FloatValues

  datatype Operation = Operation(isAdd: bool, operand: Bits)

  /** Float addition and subtraction are left open; they map patterns to patterns. */
  datatype Arithmetic = Arithmetic(fmt: Format, add: (Bits, Bits) -> Bits, sub: (Bits, Bits) -> Bits)

  ghost predicate Sane(m: Arithmetic) {
    && Supported(m.fmt)
    && (forall x, y :: IsPattern(m.fmt, m.add(x, y)) && IsPattern(m.fmt, m.sub(x, y)))
  }

  /** The value published by a successful exchange. */
  function Apply(m: Arithmetic, op: Operation, before: Bits): Bits {
    var x, y := FlushSubnormal(m.fmt, before), FlushSubnormal(m.fmt, op.operand);
    CanonicalizeNaN(m.fmt, if op.isAdd then m.add(x, y) else m.sub(x, y))
  }

  /** A thread's place in the emitted code: before the seed load, in the retry block, or done. The
      naturals are bookkeeping: how many successes there were when the operation was invoked, when its
      expected bits were read, and when it won; and how many of its exchanges failed. */
  datatype Thread =
    | Idle
    | Invoked(op: Operation, invokedAt: nat)
    | Retry(op: Operation, invokedAt: nat, expected: Bits, seenAt: nat, failures: nat)
    | Done(op: Operation, invokedAt: nat, result: Bits, wonAt: nat, failures: nat)

  datatype Success = Success(thread: nat, op: Operation, before: Bits, after: Bits)

  datatype Completed = Completed(thread: nat, op: Operation, result: Bits, invokedAt: nat, wonAt: nat, returnedAt: nat)

  datatype System = System(cell: Bits, threads: seq<Thread>, log: seq<Success>, completed: seq<Completed>)

  datatype Action = Invoke(op: Operation) | SeedLoad | Exchange | Return

  predicate Enabled(s: System, t: nat, a: Action) {
    t < |s.threads| &&
    match a
    case Invoke(_) => s.threads[t].Idle?
    case SeedLoad => s.threads[t].Invoked?
    case Exchange => s.threads[t].Retry?
    case Return => s.threads[t].Done?
  }

  /** One atomic step of thread t. A strong exchange fails only when the cell differs from the
      expected bits, and then the observed bits become the next expected ones. */
  function Step(m: Arithmetic, s: System, t: nat, a: Action): System
    requires Enabled(s, t, a)
  {
    var n := |s.log|;
    match a
    case Invoke(op) => s.(threads := s.threads[t := Invoked(op, n)])
    case SeedLoad =>
      var th := s.threads[t];
      s.(threads := s.threads[t := Retry(th.op, th.invokedAt, s.cell, n, 0)])
    case Exchange =>
      var th := s.threads[t];
      if s.cell == th.expected then
        var next := Apply(m, th.op, th.expected);
        s.(cell := next,
           threads := s.threads[t := Done(th.op, th.invokedAt, th.expected, n, th.failures)],
           log := s.log + [Success(t, th.op, th.expected, next)])
      else
        s.(threads := s.threads[t := Retry(th.op, th.invokedAt, s.cell, n, th.failures + 1)])
    case Return =>
      var th := s.threads[t];
      s.(threads := s.threads[t := Idle],
         completed := s.completed + [Completed(t, th.op, th.result, th.invokedAt, th.wonAt, n)])
  }

  /** A schedule picks a thread and an action at every step; disabled picks do nothing. */
  type Schedule = seq<(nat, Action)>

  function Run(m: Arithmetic, s: System, schedule: Schedule): System
    decreases |schedule|
  {
    if schedule == [] then s
    else
      var (t, a) := schedule[0];
      Run(m, if Enabled(s, t, a) then Step(m, s, t, a) else s, schedule[1..])
  }

  function Initial(cell: Bits, threads: nat): System {
    System(cell, seq(threads, _ => Idle), [], [])
  }

  /** The sequential object: the cell after the first n successes. */
  function CellAfter(m: Arithmetic, cell: Bits, log: seq<Success>, n: nat): Bits
    requires n <= |log|
  {
    if n == 0 then cell else Apply(m, log[n - 1].op, CellAfter(m, cell, log, n - 1))
  }

  ghost predicate LogSequential(m: Arithmetic, cell: Bits, log: seq<Success>) {
    forall k :: 0 <= k < |log| ==>
      log[k].before == CellAfter(m, cell, log, k) && log[k].after == CellAfter(m, cell, log, k + 1)
  }

  /** Thread t wrote nothing from success number `from` on. */
  ghost predicate QuietSince(log: seq<Success>, t: nat, from: nat) {
    forall k :: from <= k < |log| ==> log[k].thread != t
  }

  ghost predicate ThreadOk(m: Arithmetic, cell: Bits, log: seq<Success>, t: nat, th: Thread) {
    match th
    case Idle => true
    case Invoked(_, invokedAt) => invokedAt <= |log| && QuietSince(log, t, invokedAt)
    case Retry(_, invokedAt, expected, seenAt, failures) =>
      && invokedAt + failures <= seenAt <= |log| && QuietSince(log, t, invokedAt)
      && expected == CellAfter(m, cell, log, seenAt)
    case Done(op, invokedAt, result, wonAt, failures) =>
      && invokedAt + failures <= wonAt < |log| && QuietSince(log, t, wonAt + 1)
      && log[wonAt] == Success(t, op, result, CellAfter(m, cell, log, wonAt + 1))
  }

  ghost predicate CompletedOk(log: seq<Success>, threads: seq<Thread>, c: Completed) {
    && c.invokedAt <= c.wonAt < c.returnedAt <= |log|
    && log[c.wonAt].thread == c.thread && log[c.wonAt].op == c.op && log[c.wonAt].before == c.result
    && (c.thread < |threads| && threads[c.thread].Done? ==> threads[c.thread].wonAt > c.wonAt)
    && (c.thread < |threads| && !threads[c.thread].Idle? ==> threads[c.thread].invokedAt >= c.returnedAt)
  }

  ghost predicate Invariant(m: Arithmetic, cell: Bits, s: System) {
    && LogSequential(m, cell, s.log)
    && s.cell == CellAfter(m, cell, s.log, |s.log|)
    && (forall t :: 0 <= t < |s.threads| ==> ThreadOk(m, cell, s.log, t, s.threads[t]))
    && (forall i :: 0 <= i < |s.completed| ==> CompletedOk(s.log, s.threads, s.completed[i]))
    && (forall i, j :: 0 <= i < j < |s.completed| ==> s.completed[i].wonAt != s.completed[j].wonAt)
  }

  /** Appending a success does not change the cells before it. */
  lemma {:induction false} CellAfterPrefix(m: Arithmetic, cell: Bits, log: seq<Success>, more: seq<Success>, n: nat)
    requires n <= |log|
    ensures CellAfter(m, cell, log + more, n) == CellAfter(m, cell, log, n)
  {
    if n > 0 {
      CellAfterPrefix(m, cell, log, more, n - 1);
    }
  }

  /** What the log alone says after a win. */
  lemma LogGrows(m: Arithmetic, cell: Bits, log: seq<Success>, entry: Success)
    requires LogSequential(m, cell, log) && entry.before == CellAfter(m, cell, log, |log|)
    requires entry.after == Apply(m, entry.op, entry.before)
    ensures LogSequential(m, cell, log + [entry]) && entry.after == CellAfter(m, cell, log + [entry], |log| + 1)
    ensures forall n: nat :: n <= |log| ==> CellAfter(m, cell, log + [entry], n) == CellAfter(m, cell, log, n)
  {
    hide Apply;
    var grown := log + [entry];
    forall n: nat | n <= |log| ensures CellAfter(m, cell, grown, n) == CellAfter(m, cell, log, n) {
      CellAfterPrefix(m, cell, log, [entry], n);
    }
    assert grown[|log|] == entry;
    forall k | 0 <= k < |grown|
      ensures grown[k].before == CellAfter(m, cell, grown, k) && grown[k].after == CellAfter(m, cell, grown, k + 1)
    {
      if k < |log| { assert grown[k] == log[k]; }
    }
  }

  lemma ThreadStays(m: Arithmetic, cell: Bits, log: seq<Success>, entry: Success, t: nat, th: Thread)
    requires ThreadOk(m, cell, log, t, th) && entry.thread != t
    ensures ThreadOk(m, cell, log + [entry], t, th)
  {
    hide Apply;
    forall n: nat | n <= |log| ensures CellAfter(m, cell, log + [entry], n) == CellAfter(m, cell, log, n) {
      CellAfterPrefix(m, cell, log, [entry], n);
    }
  }

  lemma WinStep(m: Arithmetic, cell: Bits, s: System, t: nat)
    requires Invariant(m, cell, s) && Enabled(s, t, Exchange) && s.cell == s.threads[t].expected
    ensures Invariant(m, cell, Step(m, s, t, Exchange))
  {
    hide Apply, CellAfter, LogSequential;
    var s' := Step(m, s, t, Exchange);
    assert ThreadOk(m, cell, s.log, t, s.threads[t]);
    LogGrows(m, cell, s.log, s'.log[|s.log|]);
    forall u | 0 <= u < |s.threads| ensures ThreadOk(m, cell, s'.log, u, s'.threads[u]) {
      assert ThreadOk(m, cell, s.log, u, s.threads[u]);
      if u != t {
        ThreadStays(m, cell, s.log, s'.log[|s.log|], u, s.threads[u]);
      }
    }
    forall i | 0 <= i < |s.completed| ensures CompletedOk(s'.log, s'.threads, s'.completed[i]) {
      assert CompletedOk(s.log, s.threads, s.completed[i]);
    }
  }

  /** Every other step leaves cell and log alone; only the stepping thread changes. */
  lemma OtherStep(m: Arithmetic, cell: Bits, s: System, t: nat, a: Action)
    requires Invariant(m, cell, s) && Enabled(s, t, a) && !a.Return?
    requires a.Exchange? ==> s.cell != s.threads[t].expected
    ensures Invariant(m, cell, Step(m, s, t, a))
  {
    hide Apply, CellAfter, LogSequential;
    var s' := Step(m, s, t, a);
    assert ThreadOk(m, cell, s.log, t, s.threads[t]);
    if a.Exchange? {
      // The cell moved away from the expected bits, so somebody succeeded since they were read.
      assert s.threads[t].seenAt != |s.log|;
    }
    forall u | 0 <= u < |s.threads| ensures ThreadOk(m, cell, s'.log, u, s'.threads[u]) {
      assert ThreadOk(m, cell, s.log, u, s.threads[u]);
    }
    forall i | 0 <= i < |s.completed| ensures CompletedOk(s'.log, s'.threads, s'.completed[i]) {
      assert CompletedOk(s.log, s.threads, s.completed[i]);
    }
  }

  lemma ReturnStep(m: Arithmetic, cell: Bits, s: System, t: nat)
    requires Invariant(m, cell, s) && Enabled(s, t, Return)
    ensures Invariant(m, cell, Step(m, s, t, Return))
  {
    hide Apply, CellAfter, LogSequential;
    var s' := Step(m, s, t, Return);
    assert ThreadOk(m, cell, s.log, t, s.threads[t]);
    forall u | 0 <= u < |s.threads| ensures ThreadOk(m, cell, s'.log, u, s'.threads[u]) {
      assert ThreadOk(m, cell, s.log, u, s.threads[u]);
    }
    forall i | 0 <= i < |s.completed|
      ensures CompletedOk(s'.log, s'.threads, s.completed[i]) && s.completed[i].wonAt != s.threads[t].wonAt
    {
      assert CompletedOk(s.log, s.threads, s.completed[i]);
    }
  }

  lemma StepKeepsInvariant(m: Arithmetic, cell: Bits, s: System, t: nat, a: Action)
    requires Invariant(m, cell, s) && Enabled(s, t, a)
    ensures Invariant(m, cell, Step(m, s, t, a))
  {
    hide Invariant, Step;
    if a.Exchange? && s.cell == s.threads[t].expected {
      WinStep(m, cell, s, t);
    } else if a.Return? {
      ReturnStep(m, cell, s, t);
    } else {
      OtherStep(m, cell, s, t, a);
    }
  }

  lemma {:induction false} RunKeepsInvariant(m: Arithmetic, cell: Bits, s: System, schedule: Schedule)
    requires Invariant(m, cell, s)
    ensures Invariant(m, cell, Run(m, s, schedule))
    decreases |schedule|
  {
    hide Invariant, Step, Enabled;
    if schedule != [] {
      var (t, a) := schedule[0];
      if Enabled(s, t, a) {
        StepKeepsInvariant(m, cell, s, t, a);
      }
      RunKeepsInvariant(m, cell, if Enabled(s, t, a) then Step(m, s, t, a) else s, schedule[1..]);
    }
  }

  /** Linearizability, for every number of threads and every interleaving. The log is the sequential
      history: it folds to the cell; each finished operation has its own entry, made between its
      invocation and its return, and returned the raw cell bits from just before that entry; and an
      operation that returned before another was invoked precedes it. */
  lemma Linearizable(m: Arithmetic, cell: Bits, threads: nat, schedule: Schedule)
    ensures var s := Run(m, Initial(cell, threads), schedule);
      && s.cell == CellAfter(m, cell, s.log, |s.log|)
      && (forall i :: 0 <= i < |s.completed| ==>
            var c := s.completed[i];
            && c.invokedAt <= c.wonAt < c.returnedAt <= |s.log|
            && s.log[c.wonAt].thread == c.thread && s.log[c.wonAt].op == c.op
            && c.result == CellAfter(m, cell, s.log, c.wonAt))
      && (forall i, j :: 0 <= i < j < |s.completed| ==> s.completed[i].wonAt != s.completed[j].wonAt)
      && (forall i, j :: 0 <= i < |s.completed| && 0 <= j < |s.completed|
            && s.completed[i].returnedAt <= s.completed[j].invokedAt
            ==> s.completed[i].wonAt < s.completed[j].wonAt)
  {
    var first := Initial(cell, threads);
    RunKeepsInvariant(m, cell, first, schedule);
    var s := Run(m, first, schedule);
    forall i | 0 <= i < |s.completed|
      ensures var c := s.completed[i]; c.wonAt < |s.log| && c.result == CellAfter(m, cell, s.log, c.wonAt)
    {
      assert CompletedOk(s.log, s.threads, s.completed[i]);
    }
  }

  /** Lock-freedom: an exchange about to fail has been overtaken by another thread's success, and
      an operation fails at most as often as others succeeded since it was invoked. */
  lemma FailureMeansProgress(m: Arithmetic, cell: Bits, threads: nat, schedule: Schedule, t: nat)
    requires var s := Run(m, Initial(cell, threads), schedule); Enabled(s, t, Exchange)
    ensures var s := Run(m, Initial(cell, threads), schedule);
      var th := s.threads[t];
      && th.failures <= |s.log| - th.invokedAt
      && QuietSince(s.log, t, th.invokedAt)
      && (s.cell != th.expected ==>
            exists k :: th.seenAt <= k < |s.log| && s.log[k].thread != t && s.log[k].before != s.log[k].after)
  {
    RunKeepsInvariant(m, cell, Initial(cell, threads), schedule);
    var s := Run(m, Initial(cell, threads), schedule);
    var th := s.threads[t];
    assert ThreadOk(m, cell, s.log, t, th);
    if s.cell != th.expected {
      var k := FirstChange(m, cell, s.log, th.seenAt);
      assert s.log[k].before != s.log[k].after;
    }
  }

  lemma {:induction false} FirstChange(m: Arithmetic, cell: Bits, log: seq<Success>, from: nat) returns (k: nat)
    requires from <= |log| && CellAfter(m, cell, log, from) != CellAfter(m, cell, log, |log|)
    ensures from <= k < |log| && CellAfter(m, cell, log, k) != CellAfter(m, cell, log, k + 1)
    decreases |log| - from
  {
    if CellAfter(m, cell, log, from) != CellAfter(m, cell, log, from + 1) {
      k := from;
    } else {
      k := FirstChange(m, cell, log, from + 1);
    }
  }

  lemma ApplyIsCanonical(m: Arithmetic, op: Operation, before: Bits)
    requires Sane(m)
    ensures Canonical(m.fmt, Apply(m, op, before))
  {
    hide Canonical, CanonicalizeNaN, FlushSubnormal, Supported, IsPattern;
    var x, y := FlushSubnormal(m.fmt, before), FlushSubnormal(m.fmt, op.operand);
    CanonicalizeYieldsCanonical(m.fmt, if op.isAdd then m.add(x, y) else m.sub(x, y));
  }

  /** Every bit pattern the loop publishes is canonical, so the cell is from the first success on. */
  lemma PublishesCanonical(m: Arithmetic, cell: Bits, threads: nat, schedule: Schedule)
    requires Sane(m)
    ensures var s := Run(m, Initial(cell, threads), schedule);
      && (forall k :: 0 <= k < |s.log| ==> Canonical(m.fmt, s.log[k].after))
      && (s.log != [] ==> Canonical(m.fmt, s.cell))
  {
    hide Apply, Canonical, Sane;
    RunKeepsInvariant(m, cell, Initial(cell, threads), schedule);
    var s := Run(m, Initial(cell, threads), schedule);
    forall k | 0 <= k < |s.log| ensures Canonical(m.fmt, s.log[k].after) {
      ApplyIsCanonical(m, s.log[k].op, CellAfter(m, cell, s.log, k));
      assert s.log[k].after == CellAfter(m, cell, s.log, k + 1);
    }
    if s.log != [] {
      assert s.cell == s.log[|s.log| - 1].after;
    }
  }

  /** What a success writes, said by the fields of the patterns: subnormal operands count as zeros, and a result
      that is subnormal or no number settles; every other result stays bit for bit. */
  lemma ApplyMeans(m: Arithmetic, op: Operation, before: Bits)
    requires Supported(m.fmt)
    ensures var x, y := CountsAs(m.fmt, before), CountsAs(m.fmt, op.operand);
      Apply(m, op, before) == SettlesAs(m.fmt, if op.isAdd then m.add(x, y) else m.sub(x, y))
  {
    hide Supported, FlushSubnormal, CanonicalizeNaN, CountsAs, SettlesAs;
    var x, y := CountsAs(m.fmt, before), CountsAs(m.fmt, op.operand);
    FlushMeans(m.fmt, before);
    FlushMeans(m.fmt, op.operand);
    CanonicalizeMeans(m.fmt, if op.isAdd then m.add(x, y) else m.sub(x, y));
  }

  /** Neither subnormal nor a NaN. */
  predicate Ordinary(fmt: Format, x: Bits) {
    !Tiny(fmt, x) && !NoNumber(fmt, x)
  }

  /** In every run each success writes the sum or difference of the bits it found and its operand: exactly that
      when all three are ordinary, and settled otherwise. */
  lemma SuccessWrites(m: Arithmetic, cell: Bits, threads: nat, schedule: Schedule, k: nat)
    requires Supported(m.fmt) && k < |Run(m, Initial(cell, threads), schedule).log|
    ensures var won := Run(m, Initial(cell, threads), schedule).log[k];
      var x, y := CountsAs(m.fmt, won.before), CountsAs(m.fmt, won.op.operand);
      && won.before == CellAfter(m, cell, Run(m, Initial(cell, threads), schedule).log, k)
      && won.after == SettlesAs(m.fmt, if won.op.isAdd then m.add(x, y) else m.sub(x, y))
    ensures var won := Run(m, Initial(cell, threads), schedule).log[k];
      var exact := if won.op.isAdd then m.add(won.before, won.op.operand) else m.sub(won.before, won.op.operand);
      !Tiny(m.fmt, won.before) && !Tiny(m.fmt, won.op.operand) && Ordinary(m.fmt, exact) ==> won.after == exact
  {
    hide Apply, Supported, Tiny, NoNumber;
    RunKeepsInvariant(m, cell, Initial(cell, threads), schedule);
    var s := Run(m, Initial(cell, threads), schedule);
    assert s.log[k].after == CellAfter(m, cell, s.log, k + 1);
    ApplyMeans(m, s.log[k].op, s.log[k].before);
  }
}
