/** The flush cadence of the export loop (`Main.shouldFlush`). */
module Flush {
  import opened JavaNum

  /**
   * `shouldFlush(count, flush)`: a checkpoint is due when the interval is
   * positive and the row counter is a multiple of it. The `long` counter and
   * the `int` interval meet in Java's truncating `%`, which is only reached
   * when `flush > 0`.
   */
  function ShouldFlush(count: Long, flush: Int): (r: bool)
    ensures r <==> flush > 0 && count % flush == 0
    ensures flush <= 0 ==> !r
  {
    flush > 0 && (RemZeroIffDivides(count, flush); Rem(count, flush) == 0)
  }

  /**
   * The counter values at which a run over `n` data rows fires a checkpoint.
   * The loop increments its counter before testing it, so row `k` (1-based)
   * is tested with counter `k` and counter 0 is never tested.
   */
  function Checkpoints(n: nat, flush: Int): (cs: seq<nat>)
    requires n <= MAX_LONG
    ensures forall k :: k in cs <==> 1 <= k <= n && flush > 0 && k % flush == 0
    ensures forall i, j :: 0 <= i < j < |cs| ==> cs[i] < cs[j]
    ensures |cs| == (if flush > 0 then n / flush else 0)
  {
    if n == 0 then []
    else
      var prev := Checkpoints(n - 1, flush);
      assert forall i :: 0 <= i < |prev| ==> prev[i] in prev;
      assert forall i :: 0 <= i < |prev| ==> prev[i] < n;
      if flush > 0 then DivStep(n, flush); prev + (if ShouldFlush(n, flush) then [n] else [])
      else prev + (if ShouldFlush(n, flush) then [n] else [])
  }

  /** One more row adds its counter to the checkpoints exactly when a flush is due. */
  lemma CheckpointsStep(n: nat, flush: Int)
    requires 1 <= n <= MAX_LONG
    ensures Checkpoints(n, flush) == Checkpoints(n - 1, flush) + (if ShouldFlush(n, flush) then [n] else [])
  {
  }

  /** Moving from `n - 1` to `n` adds one to `n / d` exactly when `d` divides `n`. */
  lemma DivStep(n: int, d: int)
    requires n >= 1 && d > 0
    ensures n / d == (n - 1) / d + (if n % d == 0 then 1 else 0)
  {
    var q := (n - 1) / d;
    var r := (n - 1) % d;
    assert n - 1 == d * q + r;
    if r == d - 1 {
      assert n == d * (q + 1) + 0;
      ModUnique(n, d, q + 1, 0);
      DivUnique(n, d, q + 1, 0);
    } else {
      assert n == d * q + (r + 1);
      ModUnique(n, d, q, r + 1);
      DivUnique(n, d, q, r + 1);
    }
  }

  lemma DivUnique(x: int, b: int, q: int, r: int)
    requires b > 0 && 0 <= r < b && x == b * q + r
    ensures x / b == q
  {
    ModUnique(x, b, q, r);
  }

  /** The checkpoints of the unit tests: interval 0 never fires, 1 always fires, 2 on even counters. */
  lemma ShouldFlushExamples()
    ensures !ShouldFlush(0, 0) && !ShouldFlush(4, 0) && !ShouldFlush(7, 0)
    ensures ShouldFlush(0, 1) && ShouldFlush(4, 1) && ShouldFlush(7, 1)
    ensures ShouldFlush(0, 2) && ShouldFlush(4, 2) && !ShouldFlush(7, 2)
  {
  }

  /** With interval 1 every row is a checkpoint; with no interval none is. */
  lemma {:induction false} CheckpointsExtremes(n: nat)
    requires n <= MAX_LONG
    ensures Checkpoints(n, 1) == seq(n, i => i + 1)
    ensures Checkpoints(n, 0) == []
  {
    if n > 0 {
      CheckpointsExtremes(n - 1);
      assert seq(n, i => i + 1) == seq(n - 1, i => i + 1) + [n];
    }
  }
}
