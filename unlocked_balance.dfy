/**
 * The balance engine of the `useUnlockedBalance` hook: the local vesting estimate
 * (`calculateLocalBalance`), the 100 ms tick that stores it, and the reconciliation
 * against the contract's own `unlockedBalance` read.
 */
module UnlockedBalance {
  import opened Streams

  /** 0.001 CELO in base units (10^15): the drift a contract read must exceed to overwrite the estimate. */
  const Threshold: nat := 1_000_000_000_000_000

  /** The text shown while there is no estimate. */
  const ZeroDisplay: string := "0.00"

  /**
   * Division of JavaScript bigints by a positive divisor: the quotient is truncated toward
   * zero, so for a negative dividend it is the ceiling, not Dafny's floor.
   */
  function TruncDiv(a: int, b: int): (q: int)
    requires b > 0
    ensures 0 <= a ==> 0 <= q * b <= a < q * b + b
    ensures a < 0 ==> a <= q * b <= 0 && q * b < a + b
  {
    if a >= 0 then
      DivFacts(a, b);
      a / b
    else
      DivFacts(-a, b);
      assert -((-a) / b) * b == -(((-a) / b) * b);
      -((-a) / b)
  }

  lemma DivFacts(x: int, b: int)
    requires 0 <= x && 0 < b
    ensures 0 <= x / b && 0 <= (x / b) * b <= x < (x / b) * b + b
  {
    MulMonotone(b, 0, x / b);
  }

  /** `c * d / d == c` for a positive divisor. */
  lemma MulDivCancel(c: int, d: int)
    requires 0 < d
    ensures c * d / d == c
  {
    var q, r := c * d / d, c * d % d;
    assert (c - q) * d == r;
    if c - q >= 1 {
      MulMonotone(d, 1, c - q);
    } else if c - q <= -1 {
      MulMonotone(d, c - q, -1);
    }
  }

  lemma MulMonotone(c: int, x: int, y: int)
    requires 0 <= c && x <= y
    ensures c * x <= c * y
  {
    assert c * y - c * x == c * (y - x);
  }

  lemma MulSucc(b: int, q: int, r: int)
    ensures b * (q + 1) == q * b + b && b * r == r * b
  {
  }

  /** Truncating division is monotone in the dividend. */
  lemma TruncDivMonotone(a1: int, a2: int, b: int)
    requires b > 0 && a1 <= a2
    ensures TruncDiv(a1, b) <= TruncDiv(a2, b)
  {
    var q1, q2 := TruncDiv(a1, b), TruncDiv(a2, b);
    if q1 > q2 {
      MulMonotone(b, q2 + 1, q1);
      MulSucc(b, q2, q1);
      assert false;
    }
  }

  /**
   * `calculateLocalBalance` at wall-clock second `now`: zero without stream data, with a zero
   * cap or a zero duration; otherwise `cap * (now - lastWithdrawal) / unlockDuration`, truncated
   * toward zero and capped at `cap`. The elapsed time is not clamped at zero.
   */
  function LocalBalance(data: Option<StreamData>, now: int): (r: int)
    ensures data.None? || data.value.cap == 0 || data.value.unlockDuration == 0 ==> r == 0
    ensures data.Some? ==> r <= data.value.cap
  {
    match data
    case None => 0
    case Some(s) =>
      if s.cap == 0 || s.unlockDuration == 0 then 0
      else
        var unlocked := TruncDiv(s.cap * (now - s.lastWithdrawal), s.unlockDuration);
        if unlocked > s.cap then s.cap else unlocked
  }

  /** From the baseline on, the estimate is the floor of the linear share, capped, and lies in [0, cap]. */
  lemma ElapsedFormula(s: StreamData, now: int)
    requires s.unlockDuration > 0 && now >= s.lastWithdrawal
    ensures var share := s.cap * (now - s.lastWithdrawal) / s.unlockDuration;
            LocalBalance(Some(s), now) == if share > s.cap then s.cap else share
    ensures 0 <= LocalBalance(Some(s), now) <= s.cap
  {
    MulMonotone(s.cap, 0, now - s.lastWithdrawal);
    if s.cap == 0 {
      assert s.cap * (now - s.lastWithdrawal) == 0;
    }
  }

  /** Before the unlock period is over the cap is never reached early: the estimate is exactly the linear share. */
  lemma LinearBeforeEnd(s: StreamData, now: int)
    requires s.unlockDuration > 0 && s.lastWithdrawal <= now <= s.lastWithdrawal + s.unlockDuration
    ensures LocalBalance(Some(s), now) == s.cap * (now - s.lastWithdrawal) / s.unlockDuration
  {
    var e := now - s.lastWithdrawal;
    ElapsedFormula(s, now);
    MulMonotone(s.cap, e, s.unlockDuration);
    MulDivCancel(s.cap, s.unlockDuration);
    DivMonotone(s.cap * e, s.cap * s.unlockDuration, s.unlockDuration);
  }

  lemma DivMonotone(x: int, y: int, d: int)
    requires d > 0 && x <= y
    ensures x / d <= y / d
  {
    if x / d > y / d {
      MulMonotone(d, y / d + 1, x / d);
      assert false;
    }
  }

  /** Once the whole unlock duration has elapsed, the estimate is exactly the cap. */
  lemma SaturatesAtCap(s: StreamData, now: int)
    requires s.unlockDuration > 0 && now - s.lastWithdrawal >= s.unlockDuration
    ensures LocalBalance(Some(s), now) == s.cap
  {
    var e := now - s.lastWithdrawal;
    ElapsedFormula(s, now);
    MulMonotone(s.cap, s.unlockDuration, e);
    MulDivCancel(s.cap, s.unlockDuration);
    DivMonotone(s.cap * s.unlockDuration, s.cap * e, s.unlockDuration);
  }

  /** For a fixed snapshot the estimate never decreases as time advances, on either side of the baseline. */
  lemma MonotoneInTime(data: Option<StreamData>, t1: int, t2: int)
    requires t1 <= t2
    ensures LocalBalance(data, t1) <= LocalBalance(data, t2)
  {
    if data.Some? && data.value.cap > 0 && data.value.unlockDuration > 0 {
      var s := data.value;
      MulMonotone(s.cap, t1 - s.lastWithdrawal, t2 - s.lastWithdrawal);
      TruncDivMonotone(s.cap * (t1 - s.lastWithdrawal), s.cap * (t2 - s.lastWithdrawal), s.unlockDuration);
    }
  }

  /**
   * A baseline in the future is not clamped: the estimate is the negated floor of
   * `cap * (lastWithdrawal - now) / unlockDuration`, so it is zero or negative.
   */
  lemma FutureBaselineNotClamped(s: StreamData, now: int)
    requires s.cap > 0 && s.unlockDuration > 0 && now < s.lastWithdrawal
    ensures LocalBalance(Some(s), now) == -(s.cap * (s.lastWithdrawal - now) / s.unlockDuration)
    ensures LocalBalance(Some(s), now) <= 0
  {
    var ahead := s.lastWithdrawal - now;
    NegateFactor(s.cap, ahead);
    MulMonotone(s.cap, 1, ahead);
    DivFacts(s.cap * ahead, s.unlockDuration);
    assert TruncDiv(s.cap * (now - s.lastWithdrawal), s.unlockDuration) == -(s.cap * ahead / s.unlockDuration);
  }

  lemma NegateFactor(c: int, x: int)
    ensures c * -x == -(c * x)
  {
  }

  /** A baseline one second ahead with cap 10 and duration 3 gives -3: negative, and rounded toward zero (floor would give -4). */
  lemma FutureBaselineExample()
    ensures LocalBalance(Some(StreamData(10, 3, 1, ZeroAddress)), 0) == -3
  {
    FutureBaselineNotClamped(StreamData(10, 3, 1, ZeroAddress), 0);
  }

  /** 100 CELO over one day: half of it after twelve hours, all of it (capped) after 25 hours. */
  lemma HalfDayAndPastEnd(t0: nat)
    ensures var s := StreamData(100 * 1_000_000_000_000_000_000, 86400, t0, ZeroAddress);
            LocalBalance(Some(s), t0 + 43200) == 50 * 1_000_000_000_000_000_000 &&
            LocalBalance(Some(s), t0 + 90000) == 100 * 1_000_000_000_000_000_000
  {
    var s := StreamData(100 * 1_000_000_000_000_000_000, 86400, t0, ZeroAddress);
    LinearBeforeEnd(s, t0 + 43200);
    SaturatesAtCap(s, t0 + 90000);
  }

  /** The drift between a contract read and the estimate, computed as larger minus smaller. */
  function Drift(contract: int, estimate: int): (d: nat)
    ensures d == contract - estimate || d == estimate - contract
    ensures d == 0 <==> contract == estimate
  {
    if contract > estimate then contract - estimate else estimate - contract
  }

  /** The reconciliation policy: a contract read replaces the estimate only when it drifts by more than the threshold. */
  function Reconciled(estimate: int, contract: int): (r: int)
    ensures Drift(contract, estimate) > Threshold ==> r == contract
    ensures Drift(contract, estimate) <= Threshold ==> r == estimate
    ensures Drift(contract, r) <= Threshold
  {
    if Drift(contract, estimate) > Threshold then contract else estimate
  }

  /** Reconciling twice against the same read changes nothing more. */
  lemma ReconcileIdempotent(estimate: int, contract: int)
    ensures Reconciled(Reconciled(estimate, contract), contract) == Reconciled(estimate, contract)
  {
  }

  /** A local estimate 0.002 CELO above a 100 CELO read drifts by 2 * 10^15 and snaps to the read. */
  lemma SnapExample()
    ensures Reconciled(100_002 * 1_000_000_000_000_000, 100 * 1_000_000_000_000_000_000) == 100 * 1_000_000_000_000_000_000
  {
  }

  /**
   * The state of one `useUnlockedBalance` instance. The contract reads and the connection
   * status arrive as events; `format` stands for viem's `formatEther`.
   */
  class BalanceEngine {
    const format: int -> string
    var isConnected: bool
    var streamData: Option<StreamData>
    var contractBalance: Option<int>
    var interpolatedBalance: int
    var displayBalance: string

    /** The display text always shows the estimate: its formatted text, or "0.00" for a reset estimate. */
    ghost predicate Valid()
      reads this
    {
      displayBalance == format(interpolatedBalance) || (interpolatedBalance == 0 && displayBalance == ZeroDisplay)
    }

    constructor (format: int -> string)
      ensures Valid()
      ensures this.format == format && !isConnected && streamData.None? && contractBalance.None?
      ensures interpolatedBalance == 0 && displayBalance == ZeroDisplay
    {
      this.format := format;
      isConnected := false;
      streamData := None;
      contractBalance := None;
      interpolatedBalance := 0;
      displayBalance := ZeroDisplay;
    }

    /** Both state variables go back to zero, as the tick effect does when its guard fails. */
    method Reset()
      modifies this
      ensures Valid()
      ensures interpolatedBalance == 0 && displayBalance == ZeroDisplay
      ensures isConnected == old(isConnected) && streamData == old(streamData) && contractBalance == old(contractBalance)
    {
      interpolatedBalance := 0;
      displayBalance := ZeroDisplay;
    }

    /**
     * The wallet connects or disconnects. The tick effect re-runs: without a connection or stream
     * data its guard resets at once; otherwise it only restarts the interval, which computes on its
     * next tick. The effect runs only when `isConnected` changes value; calling this with the value
     * it already has stands for no run at all when connected, and repeats the idempotent reset otherwise.
     */
    method SetConnected(connected: bool)
      requires Valid()
      modifies this
      ensures Valid()
      ensures isConnected == connected && streamData == old(streamData) && contractBalance == old(contractBalance)
      ensures if !connected || streamData.None?
              then interpolatedBalance == 0 && displayBalance == ZeroDisplay
              else interpolatedBalance == old(interpolatedBalance) && displayBalance == old(displayBalance)
    {
      isConnected := connected;
      if !isConnected || streamData.None? {
        Reset();
      }
    }

    /** A `streams(address)` read arrives (or is dropped); the tick effect re-runs as for a connection change. */
    method OnStreamData(data: Option<StreamData>)
      requires Valid()
      modifies this
      ensures Valid()
      ensures streamData == data && isConnected == old(isConnected) && contractBalance == old(contractBalance)
      ensures if !isConnected || data.None?
              then interpolatedBalance == 0 && displayBalance == ZeroDisplay
              else interpolatedBalance == old(interpolatedBalance) && displayBalance == old(displayBalance)
    {
      streamData := data;
      if !isConnected || streamData.None? {
        Reset();
      }
    }

    /**
     * One 100 ms tick at wall-clock second `now`: the local estimate and its formatted text. The
     * reset branch stands for the effect's guard: while disconnected or without data the interval
     * is cleared, so no tick fires and the values stay at the zero the guard set.
     */
    method Tick(now: int)
      requires Valid()
      modifies this
      ensures Valid()
      ensures isConnected == old(isConnected) && streamData == old(streamData) && contractBalance == old(contractBalance)
      ensures if isConnected && streamData.Some?
              then interpolatedBalance == LocalBalance(streamData, now) && displayBalance == format(interpolatedBalance)
              else interpolatedBalance == 0 && displayBalance == ZeroDisplay
    {
      if !isConnected || streamData.None? {
        Reset();
      } else {
        var balance := LocalBalance(streamData, now);
        interpolatedBalance := balance;
        displayBalance := format(balance);
      }
    }

    /** The reconciliation effect: snap to the last contract read when it drifts by more than 10^15. */
    method Reconcile()
      requires Valid()
      modifies this
      ensures Valid()
      ensures isConnected == old(isConnected) && streamData == old(streamData) && contractBalance == old(contractBalance)
      ensures contractBalance.None? ==> interpolatedBalance == old(interpolatedBalance) && displayBalance == old(displayBalance)
      ensures contractBalance.Some? ==> interpolatedBalance == Reconciled(old(interpolatedBalance), contractBalance.value)
      ensures contractBalance.Some? ==> Drift(contractBalance.value, interpolatedBalance) <= Threshold
      ensures displayBalance == if interpolatedBalance == old(interpolatedBalance) then old(displayBalance)
                                else format(interpolatedBalance)
    {
      if contractBalance.Some? {
        var contract := contractBalance.value;
        var diff := if contract > interpolatedBalance then contract - interpolatedBalance
                    else interpolatedBalance - contract;
        if diff > Threshold {
          interpolatedBalance := contract;
          displayBalance := format(contract);
        }
      }
    }

    /** An `unlockedBalance(address)` read arrives (or is dropped) and the reconciliation effect runs. */
    method OnContractBalance(contract: Option<int>)
      requires Valid()
      modifies this
      ensures Valid()
      ensures contractBalance == contract && isConnected == old(isConnected) && streamData == old(streamData)
      ensures contract.None? ==> interpolatedBalance == old(interpolatedBalance) && displayBalance == old(displayBalance)
      ensures contract.Some? ==> interpolatedBalance == Reconciled(old(interpolatedBalance), contract.value)
      ensures contract.Some? ==> Drift(contract.value, interpolatedBalance) <= Threshold
      ensures displayBalance == if interpolatedBalance == old(interpolatedBalance) then old(displayBalance)
                                else format(interpolatedBalance)
    {
      contractBalance := contract;
      Reconcile();
    }

    /**
     * A tick followed by the reconciliation effect, which re-runs because the estimate is one of
     * its dependencies: afterwards the estimate is within the threshold of the last contract read.
     */
    method TickAndSync(now: int)
      requires Valid()
      modifies this
      ensures Valid()
      ensures isConnected == old(isConnected) && streamData == old(streamData) && contractBalance == old(contractBalance)
      ensures var estimate := if isConnected && streamData.Some? then LocalBalance(streamData, now) else 0;
              interpolatedBalance == match contractBalance
                                     case None => estimate
                                     case Some(v) => Reconciled(estimate, v)
      ensures contractBalance.Some? ==> Drift(contractBalance.value, interpolatedBalance) <= Threshold
      ensures var estimate := if isConnected && streamData.Some? then LocalBalance(streamData, now) else 0;
              var tickText := if isConnected && streamData.Some? then format(estimate) else ZeroDisplay;
              displayBalance == if contractBalance.Some? && Drift(contractBalance.value, estimate) > Threshold
                                then format(contractBalance.value) else tickText
    {
      Tick(now);
      Reconcile();
    }
  }
}
