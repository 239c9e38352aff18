/**
 The rate limit `limit_curr_rate`, over exact real arithmetic: after a block, the transfer sleeps so
 long that the block's measured rate comes down to the limit.
 */
module Throttle {

  /** Measured times below a microsecond count as a millisecond. */
  function Measured(start: real, now: real): (e: real)
    ensures e > 0.0
    ensures now >= start ==> e <= now - start + 0.001
  {
    if now - start < 0.000001 then 0.001 else now - start
  }

  /** The measured rate. */
  function Rate(nbytes: int, elapsed: real): real
    requires elapsed > 0.0
  {
    nbytes as real / elapsed
  }

  /** How many times the limit a rate is. */
  function Ratio(rate: real, limit: int): real
    requires limit > 0
  {
    rate / limit as real
  }

  function Excess(ratio: real, elapsed: real): real {
    (ratio - 1.0) * elapsed
  }

  function SleepTime(limit: int, nbytes: int, elapsed: real): real
    requires elapsed > 0.0
  {
    var rate := Rate(nbytes, elapsed);
    if limit > 0 && rate > limit as real then Excess(Ratio(rate, limit), elapsed) else 0.0
  }

  lemma Below(l: real, rate: real, elapsed: real)
    requires rate <= l && elapsed > 0.0
    ensures rate * elapsed <= l * elapsed
  {}

  lemma RateAbove(l: real, n: real, elapsed: real)
    requires l > 0.0 && elapsed > 0.0
    ensures n / elapsed > l <==> n > l * elapsed
    ensures (n / elapsed / l - 1.0) * elapsed == n / l - elapsed
  {
    var rate := n / elapsed;
    assert rate * elapsed == n;
    if rate > l {
      assert rate * elapsed > l * elapsed;
    } else {
      Below(l, rate, elapsed);
    }
    Quotients(l, n, rate, elapsed);
  }

  lemma Quotients(l: real, n: real, rate: real, elapsed: real)
    requires l > 0.0 && n == rate * elapsed
    ensures (rate / l - 1.0) * elapsed == n / l - elapsed
  {
    var q := rate / l;
    assert q * l == rate;
    assert n == (q * elapsed) * l;
    assert n / l == q * elapsed;
  }

  /** The sleep is the time the block should have taken, less the time it took; none without a limit. */
  lemma SleepIs(limit: int, nbytes: int, elapsed: real)
    requires elapsed > 0.0
    ensures limit > 0 ==>
              && (Rate(nbytes, elapsed) > limit as real <==> nbytes as real > limit as real * elapsed)
              && Excess(Ratio(Rate(nbytes, elapsed), limit), elapsed) == nbytes as real / limit as real - elapsed
    ensures SleepTime(limit, nbytes, elapsed)
         == if limit > 0 && nbytes as real > limit as real * elapsed then nbytes as real / limit as real - elapsed
            else 0.0
  {
    if limit > 0 {
      RateAbove(limit as real, nbytes as real, elapsed);
    }
  }

  lemma SleepPositive(limit: int, nbytes: int, elapsed: real)
    requires limit > 0 && elapsed > 0.0 && nbytes as real > limit as real * elapsed
    ensures nbytes as real / limit as real - elapsed > 0.0
  {
    var q := nbytes as real / limit as real;
    assert q * limit as real == nbytes as real;
    if q <= elapsed {
      Below(q, elapsed, limit as real);
      assert false;
    }
  }

  class Session {
    const limitsMaxUpload: int
    const limitsMaxDownload: int
    var startTime: real

    constructor (limitsMaxUpload: int, limitsMaxDownload: int, startTime: real)
      ensures this.limitsMaxUpload == limitsMaxUpload && this.limitsMaxDownload == limitsMaxDownload
      ensures this.startTime == startTime
    {
      this.limitsMaxUpload, this.limitsMaxDownload := limitsMaxUpload, limitsMaxDownload;
      this.startTime := startTime;
    }

    /**
     `limit_curr_rate`: the clock shows now when it is called and later when the clock is read again
     at its end, and sleepFails tells whether `n_sleep` fails. The result is the time it is asked to
     sleep, 0.0 for none. The clock is restarted unless a sleep was needed and failed.
     */
    method LimitCurrRate(nbytes: int, isUpload: bool, now: real, later: real, sleepFails: bool) returns (slept: real)
      modifies this
      ensures var limit := if isUpload then limitsMaxUpload else limitsMaxDownload;
              && slept == SleepTime(limit, nbytes, Measured(old(startTime), now))
              && var elapsed := if now - old(startTime) < 0.000001 then 0.001 else now - old(startTime);
                 slept == if limit > 0 && nbytes as real > limit as real * elapsed
                          then nbytes as real / limit as real - elapsed
                          else 0.0
      ensures startTime == if slept > 0.0 && sleepFails then old(startTime) else later
    {
      hide SleepTime, Rate, Ratio, Excess;
      var elapsed := now - startTime;
      if elapsed < 0.000001 {
        elapsed := 0.001;
      }
      SleepIs(if isUpload then limitsMaxUpload else limitsMaxDownload, nbytes, elapsed);
      var currRate := Rate(nbytes, elapsed);
      var rateRatio := 0.0;
      if isUpload {
        if limitsMaxUpload > 0 && currRate > limitsMaxUpload as real {
          rateRatio := Ratio(currRate, limitsMaxUpload);
        } else {
          startTime := later;
          return 0.0;
        }
      } else {
        if limitsMaxDownload > 0 && currRate > limitsMaxDownload as real {
          rateRatio := Ratio(currRate, limitsMaxDownload);
        } else {
          startTime := later;
          return 0.0;
        }
      }
      slept := Excess(rateRatio, elapsed);
      SleepPositive(if isUpload then limitsMaxUpload else limitsMaxDownload, nbytes, elapsed);
      if sleepFails {
        return;
      }
      startTime := later;
    }
  }

  /**
   Whenever it sleeps, measured time and sleep together bring the block exactly to the limit; when it
   does not, the block was within the limit already.
   */
  lemma SleepBringsToLimit(limit: int, nbytes: int, elapsed: real)
    requires limit > 0 && elapsed > 0.0
    ensures var slept := SleepTime(limit, nbytes, elapsed);
            && slept >= 0.0
            && nbytes as real <= limit as real * (elapsed + slept)
            && (slept > 0.0 ==> nbytes as real / (elapsed + slept) == limit as real)
  {
    var l, n := limit as real, nbytes as real;
    var rate := n / elapsed;
    assert rate * elapsed == n;
    if rate > l {
      Rates(l, rate, elapsed);
    } else {
      Below(l, rate, elapsed);
    }
  }

  lemma Rates(l: real, rate: real, elapsed: real)
    requires 0.0 < l < rate && elapsed > 0.0
    ensures (rate / l - 1.0) * elapsed > 0.0
    ensures l * (elapsed + (rate / l - 1.0) * elapsed) == rate * elapsed
    ensures rate * elapsed / (elapsed + (rate / l - 1.0) * elapsed) == l
  {
    var q := rate / l;
    assert q * l == rate;
    assert q > 1.0;
    var whole := elapsed + (q - 1.0) * elapsed;
    assert whole == q * elapsed;
    assert l * whole == (q * l) * elapsed;
    assert whole > 0.0;
    assert l * whole / whole == l;
  }

  // ---------------------------------------------------------------- sequences of blocks

  /** A block: its size, the clock when it was sent, and the clock when the limiter returned. */
  datatype Block = Block(nbytes: int, now: real, later: real)

  /** Time does not run backwards. */
  predicate Timed(start: real, blocks: seq<Block>)
    decreases |blocks|
  {
    blocks == [] || (start <= blocks[0].now <= blocks[0].later && Timed(blocks[0].later, blocks[1..]))
  }

  function End(start: real, blocks: seq<Block>): real
    decreases |blocks|
  {
    if blocks == [] then start else End(blocks[0].later, blocks[1..])
  }

  function TotalBytes(blocks: seq<Block>): int {
    if blocks == [] then 0 else blocks[0].nbytes + TotalBytes(blocks[1..])
  }

  function TotalSlept(limit: int, start: real, blocks: seq<Block>): real
    decreases |blocks|
  {
    if blocks == [] then 0.0
    else
      SleepTime(limit, blocks[0].nbytes, Measured(start, blocks[0].now))
      + TotalSlept(limit, blocks[0].later, blocks[1..])
  }

  /** The clock sees the sleep: it advances by at least the time slept. */
  predicate SleepsShow(limit: int, start: real, blocks: seq<Block>)
    decreases |blocks|
  {
    blocks == [] ||
    (blocks[0].later >= blocks[0].now + SleepTime(limit, blocks[0].nbytes, Measured(start, blocks[0].now))
     && SleepsShow(limit, blocks[0].later, blocks[1..]))
  }

  lemma MeasuredBound(start: real, now: real)
    requires start <= now
    ensures Measured(start, now) <= now - start + 0.001
  {}

  /** Two bounds at the same rate add up. */
  lemma Combine(l: real, x: real, a: real, mine: real, y: real, others: real, whole: real)
    requires l > 0.0 && x <= l * a && a <= mine && y <= l * others && whole == mine + others
    ensures x + y <= l * whole
  {
    assert l * a <= l * mine;
    assert l * whole == l * mine + l * others;
  }

  /**
   Over any sequence of blocks with a positive limit, the bytes are at most the limit times the time
   that passed, plus the time slept, plus one millisecond a block.
   */
  lemma {:induction false} TotalWithinLimit(limit: int, start: real, blocks: seq<Block>)
    requires limit > 0 && Timed(start, blocks)
    ensures TotalBytes(blocks) as real
            <= limit as real
               * (End(start, blocks) - start + TotalSlept(limit, start, blocks) + 0.001 * |blocks| as real)
    decreases |blocks|
  {
    hide SleepTime, Measured;
    if blocks != [] {
      MeasuredBound(start, blocks[0].now);
      var b, rest := blocks[0], blocks[1..];
      var e := Measured(start, b.now);
      var slept := SleepTime(limit, b.nbytes, e);
      SleepBringsToLimit(limit, b.nbytes, e);
      TotalWithinLimit(limit, b.later, rest);
      var l := limit as real;
      var mine := b.later - start + slept + 0.001;
      var others := End(b.later, rest) - b.later + TotalSlept(limit, b.later, rest) + 0.001 * |rest| as real;
      var whole := End(start, blocks) - start + TotalSlept(limit, start, blocks) + 0.001 * |blocks| as real;
      Millisecond(|rest|);
      Combine(l, b.nbytes as real, e + slept, mine, TotalBytes(rest) as real, others, whole);
    }
  }

  lemma Millisecond(n: nat)
    ensures 0.001 * (n + 1) as real == 0.001 + 0.001 * n as real
  {}

  /** When the clock sees the sleeps, the time that passed and the milliseconds alone bound the bytes. */
  lemma {:induction false} TotalWithinClock(limit: int, start: real, blocks: seq<Block>)
    requires limit > 0 && Timed(start, blocks) && SleepsShow(limit, start, blocks)
    ensures TotalBytes(blocks) as real
            <= limit as real * (End(start, blocks) - start + 0.001 * |blocks| as real)
    decreases |blocks|
  {
    hide SleepTime, Measured;
    if blocks != [] {
      MeasuredBound(start, blocks[0].now);
      var b, rest := blocks[0], blocks[1..];
      var e := Measured(start, b.now);
      var slept := SleepTime(limit, b.nbytes, e);
      SleepBringsToLimit(limit, b.nbytes, e);
      TotalWithinClock(limit, b.later, rest);
      var l := limit as real;
      var mine := b.later - start + 0.001;
      var others := End(b.later, rest) - b.later + 0.001 * |rest| as real;
      var whole := End(start, blocks) - start + 0.001 * |blocks| as real;
      Millisecond(|rest|);
      Combine(l, b.nbytes as real, e + slept, mine, TotalBytes(rest) as real, others, whole);
    }
  }
}
