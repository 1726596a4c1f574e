/** `workers/fibonacciWorker.js`: the fast-doubling computation and the rule
    deciding the one message a worker posts back to the scheduler.

    The PDF renderer is abstract: its outcome for this job is a parameter.
    When it succeeds it has written `results/<jobId>.pdf`. */
module FibonacciWorker {
  import opened Wrappers
  import Decimal
  import PdfGenerator

  const MISSING_PARAMETERS := "Missing required parameters: jobId or n"
  const PDF_FAILURE_PREFIX := "Failed to generate PDF: "
  /** The text of the `RangeError` V8 throws when recursion exhausts the stack. */
  const STACK_OVERFLOW := "Maximum call stack size exceeded"

  /** The textbook definition. */
  function Fib(n: nat): nat {
    if n < 2 then n else Fib(n - 1) + Fib(n - 2)
  }

  /** The arithmetic of one induction step of `FibAddition`, with
      f0..f3 four consecutive Fibonacci numbers and z = x + y. */
  lemma AdditionStep(a: int, b: int, f0: int, f1: int, f2: int, f3: int, x: int, y: int, z: int)
    requires f2 == f1 + f0 && f3 == f2 + f1
    requires x == a * f2 + b * f1
    requires y == a * f1 + b * f0
    requires z == x + y
    ensures z == a * f3 + b * f2
  {
    assert a * f3 == a * f2 + a * f1;
    assert b * f2 == b * f1 + b * f0;
  }

  lemma FibAdditionBase(m: nat, k: nat)
    requires k < 2
    ensures Fib(m + k + 1) == Fib(m + 1) * Fib(k + 1) + Fib(m) * Fib(k)
  {
    assert Fib(0) == 0 && Fib(1) == 1 && Fib(2) == 1;
    if k == 1 {
      assert Fib(m + 2) == Fib(m + 1) + Fib(m);
    }
  }

  lemma FibAdditionStep(m: nat, k: nat)
    requires k >= 2
    requires Fib(m + (k - 1) + 1) == Fib(m + 1) * Fib((k - 1) + 1) + Fib(m) * Fib(k - 1)
    requires Fib(m + (k - 2) + 1) == Fib(m + 1) * Fib((k - 2) + 1) + Fib(m) * Fib(k - 2)
    ensures Fib(m + k + 1) == Fib(m + 1) * Fib(k + 1) + Fib(m) * Fib(k)
  {
    AdditionStep(Fib(m + 1), Fib(m), Fib(k - 2), Fib(k - 1), Fib(k), Fib(k + 1),
                 Fib(m + k), Fib(m + k - 1), Fib(m + k + 1));
  }

  /** Fib(m + k + 1) = Fib(m + 1)·Fib(k + 1) + Fib(m)·Fib(k). */
  lemma {:induction false} FibAddition(m: nat, k: nat)
    ensures Fib(m + k + 1) == Fib(m + 1) * Fib(k + 1) + Fib(m) * Fib(k)
    decreases k
  {
    if k < 2 {
      FibAdditionBase(m, k);
    } else {
      FibAddition(m, k - 1);
      FibAddition(m, k - 2);
      FibAdditionStep(m, k);
    }
  }

  /** The arithmetic of the even identity, with p = F(m-1), a = F(m), b = F(m+1). */
  lemma EvenStep(a: int, b: int, p: int, x: int)
    requires b == a + p
    requires x == b * a + a * p
    ensures x == a * (2 * b - a)
  {
  }

  lemma FibDoubleEvenStep(m: nat)
    requires m > 0
    requires Fib(m + (m - 1) + 1) == Fib(m + 1) * Fib((m - 1) + 1) + Fib(m) * Fib(m - 1)
    ensures Fib(2 * m) == Fib(m) * (2 * Fib(m + 1) - Fib(m))
  {
    assert Fib(m + 1) == Fib(m) + Fib(m - 1);
    EvenStep(Fib(m), Fib(m + 1), Fib(m - 1), Fib(2 * m));
  }

  /** The even doubling identity used for `c`: F(2m) = F(m)·(2F(m+1) − F(m)). */
  lemma FibDoubleEven(m: nat)
    ensures Fib(2 * m) == Fib(m) * (2 * Fib(m + 1) - Fib(m))
  {
    if m > 0 {
      FibAddition(m, m - 1);
      FibDoubleEvenStep(m);
    }
  }

  /** The odd doubling identity used for `d`: F(2m+1) = F(m)² + F(m+1)². */
  lemma FibDoubleOdd(m: nat)
    ensures Fib(2 * m + 1) == Fib(m) * Fib(m) + Fib(m + 1) * Fib(m + 1)
  {
    FibAddition(m, m);
  }

  /** The doubling identities over named values: from a = F(m) and
      b = F(m+1), `c` and `d` are F(2m) and F(2m+1). */
  lemma DoublingPair(m: nat, a: int, b: int, c: int, d: int)
    requires a == Fib(m) && b == Fib(m + 1)
    requires c == a * (2 * b - a) && d == a * a + b * b
    ensures c == Fib(2 * m) && d == Fib(2 * m + 1) && c + d == Fib(2 * m + 2)
  {
    FibDoubleEven(m);
    FibDoubleOdd(m);
  }

  /** One step of `fd`: from (F(m), F(m+1)) with m = k / 2, the pair built
      from `c` and `d` for the parity of `k` is (F(k), F(k+1)). */
  lemma DoublingStep(k: nat, a: int, b: int)
    requires k > 0
    requires a == Fib(k / 2) && b == Fib(k / 2 + 1)
    ensures var c := a * (2 * b - a);
      var d := a * a + b * b;
      (if k % 2 == 1 then (d, c + d) else (c, d)) == (Fib(k), Fib(k + 1))
  {
    var m := k / 2;
    var c := a * (2 * b - a);
    var d := a * a + b * b;
    DoublingPair(m, a, b, c, d);
    if k % 2 == 1 {
      assert k == 2 * m + 1;
    } else {
      assert k == 2 * m;
    }
  }

  /** The inner `fd(k)`: `k >> 1n` and `k & 1n` on a non-negative BigInt are
      `k / 2` and `k % 2`; the argument halves, so the recursion ends. */
  function Fd(k: nat): (r: (int, int))
    ensures r == (Fib(k), Fib(k + 1))
    decreases k
  {
    if k == 0 then (0, 1)
    else
      var (a, b) := Fd(k / 2);
      DoublingStep(k, a, b);
      var c := a * (2 * b - a);
      var d := a * a + b * b;
      if k % 2 == 1 then (d, c + d) else (c, d)
  }

  /** `fibFastDoubling(n)` agrees with the textbook definition. */
  function FibFastDoubling(n: nat): (r: nat)
    ensures r == Fib(n)
  {
    Fd(n).0
  }

  /** How the PDF renderer ended for this job. */
  datatype RenderOutcome = Rendered | RenderFailed(message: string)

  /** The object passed to `parentPort.postMessage`; absent fields are
      `undefined`. */
  datatype WorkerMessage = WorkerMessage(
    jobId: Option<string>,
    result: Option<string>,
    pdfPath: Option<string>,
    error: Option<string>)

  predicate StartsWith(s: string, prefix: string) {
    |prefix| <= |s| && s[..|prefix|] == prefix
  }

  /** `processFibonacciJob` for `workerData = {jobId, n}`. A negative `n` never
      reaches `fd(0)` (`-1n >> 1n` is `-1n`), so the stack overflows and the
      resulting `RangeError` is caught like any other error. */
  function ProcessJob(jobId: Option<string>, n: Option<int>, render: RenderOutcome): (m: WorkerMessage)
    ensures m.jobId == jobId
    ensures m.result.Some? != m.error.Some?
    ensures m.pdfPath.Some? == m.result.Some?
    ensures m.error.Some? ==> m.error.value != ""
    ensures (jobId.None? || n.None?) ==> m.error == Some(MISSING_PARAMETERS)
    ensures m.result.Some? <==> jobId.Some? && n.Some? && n.value >= 0 && render.Rendered?
    ensures m.result.Some? ==>
      m.result.value == Decimal.IntToString(Fib(n.value)) &&
      m.pdfPath.value == PdfGenerator.OutputPath(jobId.value)
    ensures jobId.Some? && n.Some? && n.value >= 0 && render.RenderFailed? ==>
      m.error.Some? && StartsWith(m.error.value, PDF_FAILURE_PREFIX) &&
      m.error.value[|PDF_FAILURE_PREFIX|..] == render.message
  {
    if jobId.None? || n.None? then
      WorkerMessage(jobId, None, None, Some(MISSING_PARAMETERS))
    else if n.value < 0 then
      WorkerMessage(jobId, None, None, Some(STACK_OVERFLOW))
    else
      match render
      case RenderFailed(message) =>
        WorkerMessage(jobId, None, None, Some(PDF_FAILURE_PREFIX + message))
      case Rendered =>
        var result := FibFastDoubling(n.value);
        WorkerMessage(jobId, Some(Decimal.IntToString(result)), Some(PdfGenerator.OutputPath(jobId.value)), None)
  }
}
