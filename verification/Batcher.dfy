/** The proposal batcher: proposals gathered in a buffer and sent on in batches, with adaptive parameters. */
module Batchers {
  datatype Config = Config(minSize: int, maxSize: int, minTimeout: int, maxTimeout: int, threshold: real)

  // ---------------------------------------------------------------- parameters

  /** Conversion to an integer drops the fraction. */
  function Truncate(r: real): int {
    if r >= 0.0 then r.Floor else -(-r).Floor
  }

  function Interpolate(value: real, lo: real, hi: real, targetLo: real, targetHi: real): int {
    if value <= lo then Truncate(targetLo)
    else if value >= hi then Truncate(targetHi)
    else Between(Ratio(value, lo, hi), targetLo, targetHi)
  }

  function Ratio(value: real, lo: real, hi: real): real
    requires lo < hi
  {
    (value - lo) / (hi - lo)
  }

  function Between(r: real, targetLo: real, targetHi: real): int {
    Truncate(targetLo + r * (targetHi - targetLo))
  }

  lemma TruncateMonotone(a: real, b: real)
    requires a <= b
    ensures Truncate(a) <= Truncate(b)
  {
  }

  lemma TruncateInt(n: int)
    ensures Truncate(n as real) == n
  {
  }

  lemma ScaleBounds(r: real, d: real)
    requires 0.0 <= r <= 1.0 && d >= 0.0
    ensures 0.0 <= r * d <= d
  {
    assert (1.0 - r) * d >= 0.0;
  }

  lemma RatioBounds(x: real, y: real)
    requires 0.0 < x < y
    ensures 0.0 <= x / y <= 1.0
  {
    var q := x / y;
    assert q * y == x;
    assert q > 1.0 ==> (q - 1.0) * y > 0.0;
    assert q < 0.0 ==> q * y < 0.0;
  }

  lemma RatioInUnit(value: real, lo: real, hi: real)
    requires lo < value < hi
    ensures 0.0 <= Ratio(value, lo, hi) <= 1.0
  {
    RatioBounds(value - lo, hi - lo);
  }

  lemma MiddleBounds(targetLo: real, targetHi: real, x: real)
    requires 0.0 <= x <= targetHi - targetLo
    ensures Truncate(targetLo) <= Truncate(targetLo + x) <= Truncate(targetHi)
  {
    TruncateMonotone(targetLo, targetLo + x);
    TruncateMonotone(targetLo + x, targetHi);
  }

  lemma BetweenTargets(r: real, targetLo: real, targetHi: real)
    requires 0.0 <= r <= 1.0 && targetLo <= targetHi
    ensures Truncate(targetLo) <= Between(r, targetLo, targetHi) <= Truncate(targetHi)
  {
    hide Truncate;
    var d := targetHi - targetLo;
    var x := r * d;
    ScaleBounds(r, d);
    assert 0.0 <= x <= d;
    MiddleBounds(targetLo, targetHi, x);
  }

  /** The value stays between the two targets. */
  lemma InterpolateBounds(value: real, lo: real, hi: real, targetLo: real, targetHi: real)
    requires lo <= hi && targetLo <= targetHi
    ensures Truncate(targetLo) <= Interpolate(value, lo, hi, targetLo, targetHi) <= Truncate(targetHi)
  {
    hide Truncate, Between, Ratio;
    TruncateMonotone(targetLo, targetHi);
    if lo < value < hi {
      RatioInUnit(value, lo, hi);
      BetweenTargets(Ratio(value, lo, hi), targetLo, targetHi);
    }
  }

  /** Rising by rise over v is as steep as rising by d over w. */
  predicate SameSlope(rise: real, v: real, d: real, w: real) {
    rise * w == v * d
  }

  /** Between the ends the value is the one on the straight line through them, less its fraction. */
  lemma InterpolateOnLine(value: real, lo: real, hi: real, targetLo: real, targetHi: real) returns (x: real)
    requires lo < value < hi && 0.0 <= targetLo <= targetHi
    ensures SameSlope(x - targetLo, value - lo, targetHi - targetLo, hi - lo)
    ensures var r := Interpolate(value, lo, hi, targetLo, targetHi); r as real <= x < (r + 1) as real
  {
    hide Ratio, Between, Truncate, SameSlope;
    RatioInUnit(value, lo, hi);
    RatioTimes(value, lo, hi);
    x := PointAt(Ratio(value, lo, hi), value - lo, hi - lo, targetLo, targetHi);
    TruncateDown(x);
  }

  lemma PointAt(q: real, v: real, w: real, targetLo: real, targetHi: real) returns (x: real)
    requires SameSlope(q, v, 1.0, w) && 0.0 <= q <= 1.0 && targetLo <= targetHi
    ensures Between(q, targetLo, targetHi) == Truncate(x) && targetLo <= x
    ensures SameSlope(x - targetLo, v, targetHi - targetLo, w)
  {
    hide Truncate, Between, SameSlope;
    var d := targetHi - targetLo;
    ScaleBounds(q, d);
    x := targetLo + q * d;
    BetweenIs(q, targetLo, targetHi, x);
    Scaled(q, d, w, v);
    assert x - targetLo == q * d;
  }

  lemma BetweenIs(q: real, targetLo: real, targetHi: real, x: real)
    requires x == targetLo + q * (targetHi - targetLo)
    ensures Between(q, targetLo, targetHi) == Truncate(x)
  {
    hide Truncate;
  }

  lemma Scaled(q: real, d: real, w: real, v: real)
    requires SameSlope(q, v, 1.0, w)
    ensures SameSlope(q * d, v, d, w)
  {
    assert (q * d) * w == (q * w) * d;
  }

  lemma RatioTimes(value: real, lo: real, hi: real)
    requires lo < hi
    ensures SameSlope(Ratio(value, lo, hi), value - lo, 1.0, hi - lo)
  {
  }

  lemma TruncateDown(x: real)
    requires x >= 0.0
    ensures Truncate(x) as real <= x < (Truncate(x) + 1) as real
  {
  }

  datatype Params = Params(load: real, size: int, timeout: int)

  function Abs(r: real): real {
    if r < 0.0 then -r else r
  }

  function Alpha(delta: real): real {
    if delta > 0.3 then 0.7 else if delta > 0.15 then 0.5 else 0.3
  }

  function NextLoad(usage: real, load: real): real {
    Alpha(Abs(usage - load)) * usage + (1.0 - Alpha(Abs(usage - load))) * load
  }

  /** A buffer more than 80% full counts as high load. */
  function EffectiveLoad(cfg: Config, usage: real, load: real): real {
    if usage > 0.8 && cfg.threshold + 0.1 > load then cfg.threshold + 0.1 else load
  }

  function Adjust(cfg: Config, buffered: nat, load: real): Params
    requires cfg.maxSize != 0
  {
    var usage := buffered as real / cfg.maxSize as real;
    var newLoad := NextLoad(usage, load);
    if EffectiveLoad(cfg, usage, newLoad) > cfg.threshold then
      Params(newLoad,
             Interpolate(newLoad, cfg.threshold, 1.0, cfg.maxSize as real / 2.0, cfg.maxSize as real),
             Interpolate(newLoad, cfg.threshold, 1.0, cfg.maxTimeout as real / 2.0, cfg.maxTimeout as real))
    else
      Params(newLoad,
             Interpolate(newLoad, 0.0, cfg.threshold, cfg.minSize as real, cfg.maxSize as real / 2.0),
             Interpolate(newLoad, 0.0, cfg.threshold, cfg.minTimeout as real, cfg.maxTimeout as real / 2.0))
  }

  /** The load moves toward the usage: 70% of the way when they are more than 0.3 apart, half of it above
      0.15, and 30% otherwise. */
  lemma LoadMoves(usage: real, load: real)
    ensures var gap, left := usage - load, usage - NextLoad(usage, load);
            && (gap > 0.3 || gap < -0.3 ==> left == 0.3 * gap)
            && (0.15 < gap <= 0.3 || -0.3 <= gap < -0.15 ==> left == 0.5 * gap)
            && (-0.15 <= gap <= 0.15 ==> left == 0.7 * gap)
  {
  }

  lemma NextLoadBounds(usage: real, load: real)
    requires 0.0 <= usage <= 1.0 && 0.0 <= load <= 1.0
    ensures 0.0 <= NextLoad(usage, load) <= 1.0
  {
    var a := Alpha(Abs(usage - load));
    assert a == 0.3 || a == 0.5 || a == 0.7;
  }

  /** The bounds the configuration asks for. */
  predicate Sensible(cfg: Config) {
    && 1 <= cfg.minSize && 2 * cfg.minSize <= cfg.maxSize
    && 0 <= cfg.minTimeout && 2 * cfg.minTimeout <= cfg.maxTimeout
    && 0.0 <= cfg.threshold <= 1.0
  }

  /** Whatever the buffer holds, load, size and timeout stay within their bounds. */
  lemma AdjustBounds(cfg: Config, buffered: nat, load: real)
    requires Sensible(cfg) && buffered <= cfg.maxSize && 0.0 <= load <= 1.0
    ensures var p := Adjust(cfg, buffered, load);
            0.0 <= p.load <= 1.0 && cfg.minSize <= p.size <= cfg.maxSize && cfg.minTimeout <= p.timeout <= cfg.maxTimeout
  {
    hide Interpolate, NextLoad, Truncate;
    var usage := buffered as real / cfg.maxSize as real;
    UsageBounds(buffered, cfg.maxSize);
    NextLoadBounds(usage, load);
    var l := NextLoad(usage, load);
    BothTargets(cfg, l, cfg.minSize, cfg.maxSize);
    BothTargets(cfg, l, cfg.minTimeout, cfg.maxTimeout);
  }

  lemma UsageBounds(n: nat, max: nat)
    requires n <= max && max > 0
    ensures 0.0 <= n as real / max as real <= 1.0
  {
    if 0 < n < max {
      RatioBounds(n as real, max as real);
    }
  }

  lemma BothTargets(cfg: Config, l: real, min: int, max: int)
    requires 0.0 <= cfg.threshold <= 1.0 && 0 <= min && 2 * min <= max
    ensures min <= Interpolate(l, cfg.threshold, 1.0, max as real / 2.0, max as real) <= max
    ensures min <= Interpolate(l, 0.0, cfg.threshold, min as real, max as real / 2.0) <= max
  {
    hide Interpolate, Truncate;
    InterpolateBounds(l, cfg.threshold, 1.0, max as real / 2.0, max as real);
    InterpolateBounds(l, 0.0, cfg.threshold, min as real, max as real / 2.0);
    TruncateInt(min);
    TruncateInt(max);
    TruncateMonotone(min as real, max as real / 2.0);
    TruncateMonotone(max as real / 2.0, max as real);
  }

  // ---------------------------------------------------------------- the loop

  /**
   * What happens next: a proposal comes in, the timer fires, the input closes or the context
   * ends, someone calls Stop, or the loop notices that. Once Stop has been called every send
   * races with the stop signal, and sent says which of the two wins.
   */
  datatype Event<T> = Input(item: T, sent: bool) | Tick(sent: bool) | Closed(sent: bool) | StopCalled | StopSeen(sent: bool)

  /** A batch taken from the buffer, sent on or thrown away. */
  datatype Batch<T> = Batch(items: seq<T>, sent: bool)

  datatype Batcher<T> = Batcher(buffer: seq<T>, flushed: seq<Batch<T>>, count: nat, batches: nat, params: Params,
                                stopping: bool, running: bool)

  function Initial<T>(cfg: Config): Batcher<T> {
    Batcher([], [], 0, 0, Params(0.0, cfg.minSize, cfg.minTimeout), false, true)
  }

  function Flush<T>(b: Batcher<T>, sent: bool): Batcher<T> {
    if b.buffer == [] then b
    else
      b.(buffer := [], flushed := b.flushed + [Batch(b.buffer, sent || !b.stopping)],
         count := b.count + |b.buffer|, batches := b.batches + 1)
  }

  function Step<T>(cfg: Config, b: Batcher<T>, e: Event<T>): Batcher<T>
    requires cfg.maxSize != 0
  {
    if !b.running then b
    else
      match e
      case Input(item, sent) =>
        var c := b.(buffer := b.buffer + [item]);
        if |c.buffer| >= c.params.size then Flush(c, sent) else c
      case Tick(sent) =>
        var c := Flush(b, sent);
        c.(params := Adjust(cfg, |c.buffer|, c.params.load))
      case Closed(sent) => Flush(b, sent).(running := false)
      case StopCalled => b.(stopping := true)
      case StopSeen(sent) => if b.stopping then Flush(b, sent).(running := false) else b
  }

  function Run<T>(cfg: Config, es: seq<Event<T>>): Batcher<T>
    requires cfg.maxSize != 0
  {
    if es == [] then Initial(cfg) else Step(cfg, Run(cfg, es[..|es| - 1]), es[|es| - 1])
  }

  /** The proposals the loop has taken in. */
  function Consumed<T>(cfg: Config, es: seq<Event<T>>): seq<T>
    requires cfg.maxSize != 0
  {
    if es == [] then []
    else
      var n := |es| - 1;
      Consumed(cfg, es[..n]) +
      (if Run(cfg, es[..n]).running && es[n].Input? then [es[n].item] else [])
  }

  function Concat<T>(bs: seq<Batch<T>>): seq<T> {
    if bs == [] then [] else Concat(bs[..|bs| - 1]) + bs[|bs| - 1].items
  }

  lemma ConcatSnoc<T>(bs: seq<Batch<T>>, b: Batch<T>)
    ensures Concat(bs + [b]) == Concat(bs) + b.items
  {
    assert (bs + [b])[..|bs|] == bs;
  }

  ghost predicate Conserves<T>(b: Batcher<T>, consumed: seq<T>) {
    && Concat(b.flushed) + b.buffer == consumed
    && b.count == |Concat(b.flushed)|
    && b.batches == |b.flushed|
    && (!b.stopping ==> forall i :: 0 <= i < |b.flushed| ==> b.flushed[i].sent)
    && (!b.running ==> b.buffer == [])
  }

  lemma FlushConserves<T>(b: Batcher<T>, sent: bool, consumed: seq<T>)
    requires Conserves(b, consumed)
    ensures Conserves(Flush(b, sent), consumed) && Flush(b, sent).buffer == []
    ensures Flush(b, sent).running == b.running && Flush(b, sent).params == b.params
  {
    ConcatSnoc(b.flushed, Batch(b.buffer, sent || !b.stopping));
  }

  lemma StepConserves<T>(cfg: Config, b: Batcher<T>, e: Event<T>, consumed: seq<T>)
    requires cfg.maxSize != 0 && Conserves(b, consumed)
    ensures Conserves(Step(cfg, b, e), consumed + (if b.running && e.Input? then [e.item] else []))
  {
    hide Adjust, Flush, Concat;
    assert consumed + [] == consumed;
    if b.running {
      match e
      case Input(item, sent) =>
        var c := b.(buffer := b.buffer + [item]);
        assert Concat(c.flushed) + c.buffer == (Concat(b.flushed) + b.buffer) + [item];
        assert Conserves(c, consumed + [item]);
        FlushConserves(c, sent, consumed + [item]);
      case Tick(sent) => FlushConserves(b, sent, consumed);
      case Closed(sent) => FlushConserves(b, sent, consumed);
      case StopCalled =>
      case StopSeen(sent) => FlushConserves(b, sent, consumed);
    }
  }

  /**
   * Over every run the batches taken from the buffer, then the buffer, are the proposals taken
   * in, in order; the counters agree, and until Stop is called every batch has been sent on.
   */
  lemma {:induction false} Conservation<T>(cfg: Config, es: seq<Event<T>>)
    requires cfg.maxSize != 0
    ensures Conserves(Run(cfg, es), Consumed(cfg, es))
  {
    hide Step, Conserves;
    if es == [] {
      NothingYet<T>(cfg);
    } else {
      var n := |es| - 1;
      Conservation(cfg, es[..n]);
      StepConserves(cfg, Run(cfg, es[..n]), es[n], Consumed(cfg, es[..n]));
    }
  }

  lemma NothingYet<T>(cfg: Config)
    ensures Conserves<T>(Initial(cfg), [])
  {
  }

  // ---------------------------------------------------------------- the parameters never move

  lemma AdjustEmpty(cfg: Config)
    requires cfg.maxSize != 0 && cfg.threshold >= 0.0
    ensures Adjust(cfg, 0, 0.0) == Params(0.0, cfg.minSize, cfg.minTimeout)
  {
    TruncateInt(cfg.minSize);
    TruncateInt(cfg.minTimeout);
  }

  ghost predicate Settled<T>(cfg: Config, b: Batcher<T>) {
    && b.params == Params(0.0, cfg.minSize, cfg.minTimeout)
    && (b.buffer != [] ==> |b.buffer| < cfg.minSize)
    && forall i :: 0 <= i < |b.flushed| ==> 1 <= |b.flushed[i].items| <= (if cfg.minSize > 1 then cfg.minSize else 1)
  }

  lemma StepSettled<T>(cfg: Config, b: Batcher<T>, e: Event<T>)
    requires cfg.maxSize != 0 && cfg.threshold >= 0.0 && Settled(cfg, b)
    ensures Settled(cfg, Step(cfg, b, e))
  {
    hide Adjust;
    AdjustEmpty(cfg);
  }

  /**
   * The parameters are only ever adjusted right after a flush, on an empty buffer: in every run
   * the load is 0 and the least batch size and timeout stay in force, whatever the traffic.
   */
  lemma {:induction false} NeverAdapts<T>(cfg: Config, es: seq<Event<T>>)
    requires cfg.maxSize != 0 && cfg.threshold >= 0.0
    ensures Settled(cfg, Run(cfg, es))
  {
    hide Step;
    if es != [] {
      NeverAdapts(cfg, es[..|es| - 1]);
      StepSettled(cfg, Run(cfg, es[..|es| - 1]), es[|es| - 1]);
    }
  }

  // ---------------------------------------------------------------- the batcher as an object

  /** The batches that reached the output channel. */
  function SentOn<T>(bs: seq<Batch<T>>): seq<seq<T>> {
    if bs == [] then []
    else SentOn(bs[..|bs| - 1]) + (if bs[|bs| - 1].sent then [bs[|bs| - 1].items] else [])
  }

  lemma SentSnoc<T>(bs: seq<Batch<T>>, b: Batch<T>)
    ensures SentOn(bs + [b]) == SentOn(bs) + (if b.sent then [b.items] else [])
  {
    assert (bs + [b])[..|bs|] == bs;
  }

  class ProposalBatcher {
    const cfg: Config
    var buffer: seq<string>
    var currentLoad: real
    var proposalCount: nat
    var batchCount: nat
    var proposeC: seq<seq<string>>
    var currentBatchSize: int
    var currentTimeout: int
    var stopping: bool
    var running: bool
    ghost var flushed: seq<Batch<string>>

    ghost predicate Valid()
      reads this
    {
      cfg.maxSize != 0 && proposeC == SentOn(flushed)
    }

    ghost function View(): Batcher<string>
      reads this
    {
      Batcher(buffer, flushed, proposalCount, batchCount, Params(currentLoad, currentBatchSize, currentTimeout),
              stopping, running)
    }

    constructor (cfg: Config)
      requires cfg.maxSize != 0
      ensures Valid() && this.cfg == cfg && View() == Initial(cfg)
    {
      this.cfg := cfg;
      buffer, proposeC, flushed := [], [], [];
      currentLoad, currentBatchSize, currentTimeout := 0.0, cfg.minSize, cfg.minTimeout;
      proposalCount, batchCount, stopping, running := 0, 0, false, true;
    }

    method FlushBuffer(sent: bool)
      requires Valid()
      modifies this
      ensures Valid() && View() == Flush(old(View()), sent)
    {
      hide SentOn;
      if |buffer| == 0 {
        return;
      }
      var batch := buffer;
      buffer := [];
      proposalCount := proposalCount + |batch|;
      batchCount := batchCount + 1;
      SentSnoc(flushed, Batch(batch, sent || !stopping));
      flushed := flushed + [Batch(batch, sent || !stopping)];
      if sent || !stopping {
        proposeC := proposeC + [batch];
      }
    }

    method AdjustParameters()
      requires Valid()
      modifies this
      ensures Valid() && View() == old(View()).(params := Adjust(cfg, |old(buffer)|, old(currentLoad)))
    {
      hide Interpolate, SentOn;
      var bufferUsage := |buffer| as real / cfg.maxSize as real;
      var loadDelta := Abs(bufferUsage - currentLoad);
      var alpha := 0.3;
      if loadDelta > 0.3 {
        alpha := 0.7;
      } else if loadDelta > 0.15 {
        alpha := 0.5;
      }
      var load := alpha * bufferUsage + (1.0 - alpha) * currentLoad;
      assert load == NextLoad(bufferUsage, currentLoad);
      currentLoad := load;
      var effectiveLoad := load;
      if bufferUsage > 0.8 && cfg.threshold + 0.1 > effectiveLoad {
        effectiveLoad := cfg.threshold + 0.1;
      }
      if effectiveLoad > cfg.threshold {
        currentBatchSize := Interpolate(load, cfg.threshold, 1.0, cfg.maxSize as real / 2.0, cfg.maxSize as real);
        currentTimeout := Interpolate(load, cfg.threshold, 1.0, cfg.maxTimeout as real / 2.0, cfg.maxTimeout as real);
      } else {
        currentBatchSize := Interpolate(load, 0.0, cfg.threshold, cfg.minSize as real, cfg.maxSize as real / 2.0);
        currentTimeout := Interpolate(load, 0.0, cfg.threshold, cfg.minTimeout as real, cfg.maxTimeout as real / 2.0);
      }
    }

    method Handle(e: Event<string>)
      requires Valid()
      modifies this
      ensures Valid() && View() == Step(cfg, old(View()), e)
    {
      hide Adjust, SentOn;
      if !running {
        return;
      }
      match e
      case Input(proposal, sent) =>
        buffer := buffer + [proposal];
        if |buffer| >= currentBatchSize {
          FlushBuffer(sent);
        }
      case Tick(sent) =>
        FlushBuffer(sent);
        AdjustParameters();
      case Closed(sent) =>
        FlushBuffer(sent);
        running := false;
      case StopCalled =>
        stopping := true;
      case StopSeen(sent) =>
        if stopping {
          FlushBuffer(sent);
          running := false;
        }
    }

    method RunLoop(es: seq<Event<string>>)
      requires Valid() && View() == Initial(cfg)
      modifies this
      ensures Valid() && View() == Run(cfg, es)
    {
      hide Step, SentOn;
      var i := 0;
      while i < |es|
        invariant 0 <= i <= |es| && Valid() && View() == Run(cfg, es[..i])
      {
        assert es[..i + 1][..i] == es[..i];
        Handle(es[i]);
        i := i + 1;
      }
      assert es[..i] == es;
    }
  }
}
