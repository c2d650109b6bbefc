/**
 * The percentage counter of `animateSkills`, script.js:92-103. Each 20 ms
 * tick adds `skillValue / 100` to `current`, shows `floor(current)%`, and on
 * the first tick with `current >= skillValue` clears the timer and shows
 * exactly `skillValue%`.
 *
 * The script computes with IEEE doubles; this model uses exact arithmetic.
 * After `k` ticks `current` is `k * n / 100`, so the model keeps the integer
 * numerator `k * n`: the shown label is `(k * n) / 100` (Dafny's division by
 * a positive divisor rounds down, as `Math.floor` does) and the stop test
 * `current >= n` is `k * n >= 100 * n`.
 */
module Skills {

  /** `parseInt(item.dataset.skill)`: an integer, or NaN for text that is not a number. */
  datatype Reading = Num(n: int) | NaN

  /** The percentage label: as the markup had it, `<p>%`, or `NaN%`. */
  datatype Label = Untouched | Percent(p: int) | NaNPercent

  /** The tick count, whether the interval is still armed, and the label. */
  datatype Counter = Counter(ticks: nat, running: bool, display: Label)

  /** The counter when the interval is armed: no tick yet, `current = 0`. */
  const Start := Counter(0, true, Untouched)

  /** `Math.floor(current)` after `k` ticks towards `n`. */
  function Shown(n: int, k: nat): int {
    (k * n) / 100
  }

  /** The stop test `current >= skillValue` after `k` ticks towards `n`. */
  predicate Reached(n: int, k: nat) {
    k * n >= 100 * n
  }

  /** One tick of the interval; a cleared interval no longer ticks. */
  function Tick(v: Reading, c: Counter): (r: Counter)
    ensures !c.running ==> r == c
    ensures c.running ==> r.ticks == c.ticks + 1
    ensures c.running && v.NaN? ==> r.running && r.display == NaNPercent
    ensures c.running && v.Num? ==> (r.running <==> !Reached(v.n, c.ticks + 1))
    ensures c.running && v.Num? && !r.running ==> r.display == Percent(v.n)
    ensures c.running && v.Num? && r.running ==> r.display == Percent(Shown(v.n, c.ticks + 1))
  {
    if !c.running then c
    else
      var k := c.ticks + 1;
      match v
      case NaN => Counter(k, true, NaNPercent)
      case Num(n) =>
        if Reached(n, k) then Counter(k, false, Percent(n))
        else Counter(k, true, Percent(Shown(n, k)))
  }

  /** The counter after `m` ticks of the interval. */
  function Run(v: Reading, m: nat): Counter {
    if m == 0 then Start else Tick(v, Run(v, m - 1))
  }

  /** How many ticks the counter takes towards `n`: 100 for a positive value, else 1. */
  function TicksToStop(n: int): (t: nat)
    ensures 1 <= t <= 100
  {
    if n > 0 then 100 else 1
  }

  /** Among the ticks `1..TicksToStop(n)`, the stop test first holds at the last one. */
  lemma ReachedFirstAt(n: int, k: nat)
    requires 1 <= k <= TicksToStop(n)
    ensures Reached(n, k) <==> k == TicksToStop(n)
  {
    if n > 0 {
      if k < 100 {
        assert k * n < 100 * n by { LessTimesPositive(k, 100, n); }
      }
    } else if n < 0 {
      assert k == 1;
    }
  }

  /** Multiplying both sides of `a < b` by a positive `n` keeps the order. */
  lemma LessTimesPositive(a: int, b: int, n: int)
    requires a < b && n > 0
    ensures a * n < b * n
  {
    assert b * n - a * n == (b - a) * n;
  }

  /** For `0 <= n` and at most 100 ticks, the label lies in `0..n`. */
  lemma {:induction false} ShownBounded(n: int, k: nat)
    requires 0 <= n && k <= 100
    ensures 0 <= Shown(n, k) <= n
  {
    assert 0 <= k * n <= 100 * n by { MonotoneTimes(k, 100, n); }
  }

  /** For `0 <= n` the label never goes down from one tick to a later one. */
  lemma {:induction false} ShownMonotone(n: int, k1: nat, k2: nat)
    requires 0 <= n && k1 <= k2
    ensures Shown(n, k1) <= Shown(n, k2)
  {
    assert k1 * n <= k2 * n by { MonotoneTimes(k1, k2, n); }
  }

  /** Multiplying both sides of `a <= b` by a non-negative `n` keeps the order. */
  lemma MonotoneTimes(a: nat, b: nat, n: int)
    requires a <= b && 0 <= n
    ensures 0 <= a * n <= b * n
  {
    assert b * n - a * n == (b - a) * n;
  }

  /** Before it stops, the counter is armed and shows `floor(current)`. */
  lemma {:induction false} RunBeforeStop(n: int, m: nat)
    requires 1 <= m < TicksToStop(n)
    ensures Run(Num(n), m) == Counter(m, true, Percent(Shown(n, m)))
  {
    ReachedFirstAt(n, m);
    if m > 1 {
      RunBeforeStop(n, m - 1);
    }
  }

  /**
   * At tick `TicksToStop(n)` the interval is cleared with the label exactly
   * `n%`, and no later tick changes anything.
   */
  lemma {:induction false} RunStops(n: int, m: nat)
    requires m >= TicksToStop(n)
    ensures Run(Num(n), m) == Counter(TicksToStop(n), false, Percent(n))
  {
    if m == TicksToStop(n) {
      ReachedFirstAt(n, m);
      if m > 1 {
        RunBeforeStop(n, m - 1);
      }
    } else {
      RunStops(n, m - 1);
    }
  }

  /**
   * A value that does not parse never stops the interval: `NaN >= NaN` is
   * false, so the counter ticks forever showing `NaN%`.
   */
  lemma {:induction false} NaNNeverStops(m: nat)
    ensures Run(NaN, m).running
    ensures Run(NaN, m).ticks == m
    ensures m > 0 ==> Run(NaN, m).display == NaNPercent
  {
    if m > 0 {
      NaNNeverStops(m - 1);
    }
  }

  /**
   * The counter of one skill as a loop over ticks. `shown` lists the
   * `floor(current)` of every tick, the last one included although the
   * same tick overwrites it with `final`.
   */
  method Animate(n: int) returns (ticks: nat, shown: seq<int>, final: int)
    ensures ticks == TicksToStop(n)
    ensures |shown| == ticks
    ensures forall i :: 0 <= i < |shown| ==> shown[i] == Shown(n, i + 1)
    ensures 0 <= n ==> forall i :: 0 <= i < |shown| ==> 0 <= shown[i] <= n
    ensures 0 <= n ==> forall i, j :: 0 <= i <= j < |shown| ==> shown[i] <= shown[j]
    ensures final == n
    ensures Run(Num(n), ticks) == Counter(ticks, false, Percent(final))
  {
    ticks := 0;
    shown := [];
    var numerator := 0;
    var running := true;
    while running
      invariant ticks <= TicksToStop(n)
      invariant numerator == ticks * n
      invariant running <==> ticks < TicksToStop(n)
      invariant |shown| == ticks
      invariant forall i :: 0 <= i < ticks ==> shown[i] == Shown(n, i + 1)
      decreases TicksToStop(n) - ticks
    {
      numerator := numerator + n;
      ticks := ticks + 1;
      shown := shown + [numerator / 100];
      ReachedFirstAt(n, ticks);
      if numerator >= 100 * n {
        running := false;
      }
    }
    final := n;
    if 0 <= n {
      forall i | 0 <= i < |shown|
        ensures 0 <= shown[i] <= n
      {
        ShownBounded(n, i + 1);
      }
      forall i, j | 0 <= i <= j < |shown|
        ensures shown[i] <= shown[j]
      {
        ShownMonotone(n, i + 1, j + 1);
      }
    }
    RunStops(n, ticks);
  }

  /**
   * Under exact arithmetic, a skill of 80 shows 79 on tick 99 and stops at
   * tick 100 with exactly 80%, never more. The script's doubles sum to
   * 79.99999999999984 after 100 ticks, so there it shows 79 on tick 100 and
   * stops on tick 101.
   */
  lemma EightyExample()
    ensures Run(Num(80), 99) == Counter(99, true, Percent(79))
    ensures Run(Num(80), 100) == Counter(100, false, Percent(80))
  {
    RunBeforeStop(80, 99);
    RunStops(80, 100);
  }
}
