/**
 * The `useStreamDetails` derivation: from one `streams(address)` read and the wall-clock time,
 * the record shown on the stream card. JavaScript `Number` arithmetic is modelled exactly over `real`.
 */
module StreamDetails {
  import opened Streams
  import UnlockedBalance

  /**
   * The derived record. `startTimeMs` and `endTimeMs` are the epoch milliseconds of the two
   * `Date` objects; `formattedCap` is `formatEther(cap)`.
   */
  datatype Details = Details(
    cap: nat,
    unlockDuration: nat,
    lastWithdrawal: nat,
    tokenAddress: string,
    formattedCap: string,
    durationDays: real,
    isNativeCelo: bool,
    hasStream: bool,
    startTimeMs: int,
    endTimeMs: int,
    progressPercent: real)

  const SecondsPerDay: real := 86400.0

  /** `Math.min` on two numbers. */
  function Min(a: real, b: real): (m: real)
    ensures m <= a && m <= b && (m == a || m == b)
  {
    if a <= b then a else b
  }

  /** Elapsed seconds since the baseline, from `Date.now()` in milliseconds; not floored, not clamped. */
  function Elapsed(s: StreamData, nowMs: int): (e: real)
    ensures e * 1000.0 == nowMs as real - (s.lastWithdrawal * 1000) as real
    ensures e > 0.0 <==> nowMs > s.lastWithdrawal * 1000
  {
    nowMs as real / 1000.0 - s.lastWithdrawal as real
  }

  /**
   * The reads for which the percentage is a finite number. With a positive cap and a zero duration
   * the code divides by zero: after the baseline `Math.min(100, Infinity)` is a finite 100, which
   * the model keeps; at the baseline the result is NaN and before it `-Infinity`, which it excludes.
   */
  predicate ProgressIsFinite(s: StreamData, nowMs: int) {
    s.cap > 0 && s.unlockDuration == 0 ==> Elapsed(s, nowMs) > 0.0
  }

  /**
   * `progressPercent`: zero without a stream, else `min(100, elapsed / unlockDuration * 100)`;
   * a zero duration after the baseline gives `Math.min(100, Infinity)`, that is 100.
   */
  function Progress(s: StreamData, nowMs: int): (p: real)
    requires ProgressIsFinite(s, nowMs)
    ensures p <= 100.0
    ensures s.cap == 0 ==> p == 0.0
    ensures s.cap > 0 && s.unlockDuration == 0 ==> p == 100.0
  {
    if s.cap == 0 then 0.0
    else if s.unlockDuration == 0 then 100.0
    else Min(100.0, (Elapsed(s, nowMs) / s.unlockDuration as real) * 100.0)
  }

  /** The whole derivation; `null` (here `None`) while the read has not arrived. */
  function Derive(data: Option<StreamData>, nowMs: int, format: int -> string): (r: Option<Details>)
    requires data.Some? ==> ProgressIsFinite(data.value, nowMs)
    ensures r.Some? <==> data.Some?
    ensures r.Some? ==> var s, d := data.value, r.value;
      && d.cap == s.cap && d.unlockDuration == s.unlockDuration
      && d.lastWithdrawal == s.lastWithdrawal && d.tokenAddress == s.tokenAddress
      && d.formattedCap == format(s.cap)
      && (d.hasStream <==> s.cap > 0)
      && (d.isNativeCelo <==> s.tokenAddress == ZeroAddress)
      && d.durationDays * SecondsPerDay == s.unlockDuration as real
      && d.endTimeMs - d.startTimeMs == s.unlockDuration * 1000
      && d.startTimeMs == s.lastWithdrawal * 1000
      && d.progressPercent <= 100.0
      && (!d.hasStream ==> d.progressPercent == 0.0)
      && d.progressPercent == Progress(s, nowMs)
  {
    match data
    case None => None
    case Some(s) =>
      var hasStream := s.cap > 0;
      Some(Details(
        cap := s.cap,
        unlockDuration := s.unlockDuration,
        lastWithdrawal := s.lastWithdrawal,
        tokenAddress := s.tokenAddress,
        formattedCap := format(s.cap),
        durationDays := s.unlockDuration as real / SecondsPerDay,
        isNativeCelo := s.tokenAddress == ZeroAddress,
        hasStream := hasStream,
        startTimeMs := s.lastWithdrawal * 1000,
        endTimeMs := (s.lastWithdrawal + s.unlockDuration) * 1000,
        progressPercent := Progress(s, nowMs)))
  }

  /** Within the unlock period the percentage is the exact linear share of the elapsed time. */
  lemma ProgressLinear(s: StreamData, nowMs: int)
    requires s.cap > 0 && s.unlockDuration > 0
    requires 0.0 <= Elapsed(s, nowMs) <= s.unlockDuration as real
    ensures Progress(s, nowMs) == 100.0 * Elapsed(s, nowMs) / s.unlockDuration as real
    ensures 0.0 <= Progress(s, nowMs)
  {
    var e, d := Elapsed(s, nowMs), s.unlockDuration as real;
    assert e / d <= 1.0 by {
      assert e / d * d == e;
    }
    assert 0.0 <= e / d;
  }

  /** From the end of the unlock period on, the percentage is exactly 100. */
  lemma ProgressComplete(s: StreamData, nowMs: int)
    requires s.cap > 0 && s.unlockDuration > 0
    requires Elapsed(s, nowMs) >= s.unlockDuration as real
    ensures Progress(s, nowMs) == 100.0
  {
    var e, d := Elapsed(s, nowMs), s.unlockDuration as real;
    assert e / d >= 1.0 by {
      assert e / d * d == e;
    }
  }

  /** A baseline in the future is not clamped: the percentage is negative. */
  lemma ProgressNegativeBeforeBaseline(s: StreamData, nowMs: int)
    requires s.cap > 0 && s.unlockDuration > 0
    requires nowMs < s.lastWithdrawal * 1000
    ensures Progress(s, nowMs) < 0.0
  {
    var e, d := Elapsed(s, nowMs), s.unlockDuration as real;
    assert e < 0.0;
    assert e / d < 0.0 by {
      assert e / d * d == e;
    }
  }

  /** The percentage never decreases as the clock advances. */
  lemma ProgressMonotone(s: StreamData, t1: int, t2: int)
    requires ProgressIsFinite(s, t1) && t1 <= t2
    ensures Progress(s, t1) <= Progress(s, t2)
  {
    if s.cap > 0 && s.unlockDuration > 0 {
      var e1, e2, d := Elapsed(s, t1), Elapsed(s, t2), s.unlockDuration as real;
      assert e1 <= e2;
      assert e1 / d <= e2 / d by {
        assert e2 / d - e1 / d == (e2 - e1) / d;
        assert (e2 - e1) / d * d == e2 - e1;
      }
    }
  }

  /** Integer division by a positive divisor is the floor of the exact quotient. */
  lemma IntDivIsFloor(x: int, d: int)
    requires 0 <= x && 0 < d
    ensures (x / d) as real <= x as real / d as real < (x / d + 1) as real
  {
    var q, r := x / d, x % d;
    assert x == q * d + r;
    assert x as real == q as real * d as real + r as real;
    assert x as real / d as real == q as real + r as real / d as real;
    assert 0.0 <= r as real / d as real < 1.0 by {
      assert r as real / d as real * d as real == r as real;
    }
  }

  /** The cap's share at the card's percentage is the cap times the elapsed fraction, capped at the cap. */
  lemma ShareAtProgress(s: StreamData, now: int)
    requires s.cap > 0 && s.unlockDuration > 0 && now >= s.lastWithdrawal
    ensures var x := (s.cap * (now - s.lastWithdrawal)) as real / s.unlockDuration as real;
            s.cap as real * Progress(s, now * 1000) / 100.0 == Min(s.cap as real, x)
  {
    var c, e, d := s.cap as real, (now - s.lastWithdrawal) as real, s.unlockDuration as real;
    assert Elapsed(s, now * 1000) == e;
    assert Progress(s, now * 1000) == Min(100.0, (e / d) * 100.0);
    CastMul(s.cap, now - s.lastWithdrawal);
    RegroupQuotient(c, e, d);
    CappedShare(c, e / d);
  }

  lemma RegroupQuotient(c: real, e: real, d: real)
    requires d != 0.0
    ensures c * e / d == c * (e / d)
  {
  }

  /** The cap's share at `min(100, f * 100)` percent is `min(c, c * f)`. */
  lemma CappedShare(c: real, f: real)
    requires c > 0.0
    ensures c * Min(100.0, f * 100.0) / 100.0 == Min(c, c * f)
  {
    if f >= 1.0 {
      assert c * f >= c * 1.0;
    } else {
      assert c * f < c * 1.0;
    }
  }

  /**
   * The card's percentage and the ticking balance agree: at a whole second `now` after the
   * baseline, the integer estimate is the cap's share at that percentage, rounded down to a base unit.
   */
  lemma ProgressMatchesBalance(s: StreamData, now: int)
    requires s.cap > 0 && s.unlockDuration > 0 && now >= s.lastWithdrawal
    ensures var b := UnlockedBalance.LocalBalance(Some(s), now);
            var share := s.cap as real * Progress(s, now * 1000) / 100.0;
            b as real <= share < b as real + 1.0
  {
    var e := now - s.lastWithdrawal;
    UnlockedBalance.ElapsedFormula(s, now);
    UnlockedBalance.MulMonotone(s.cap, 0, e);
    IntDivIsFloor(s.cap * e, s.unlockDuration);
    ShareAtProgress(s, now);
    var q := s.cap * e / s.unlockDuration;
    var x := (s.cap * e) as real / s.unlockDuration as real;
    assert q as real <= x < (q + 1) as real;
    if x >= s.cap as real {
      assert q >= s.cap;
    } else {
      assert q < s.cap;
    }
  }
}
