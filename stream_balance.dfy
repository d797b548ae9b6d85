/**
 * The `StreamBalance` component: the split of the display text into a whole part and a
 * fractional part truncated to eight characters, and the "is increasing" pulse with its
 * 200 ms timer.
 */
module StreamBalance {
  import opened Streams

  /** How many fractional characters are shown. */
  const ShownDecimals: nat := 8

  /** JavaScript `String.prototype.split` with a one-character separator: never empty, `"".split(c) == [""]`. */
  function Split(s: string, sep: char): (parts: seq<string>)
    ensures |parts| >= 1
    ensures forall i :: 0 <= i < |parts| ==> sep !in parts[i]
    decreases |s|
  {
    if s == [] then [""]
    else
      var rest := Split(s[1..], sep);
      if s[0] == sep then [""] + rest
      else [[s[0]] + rest[0]] + rest[1..]
  }

  /** The inverse of `Split`: the parts joined back with the separator. */
  function Join(parts: seq<string>, sep: char): (s: string)
    requires |parts| >= 1
    decreases |parts|
  {
    if |parts| == 1 then parts[0] else parts[0] + [sep] + Join(parts[1..], sep)
  }

  /** Splitting loses nothing: joining the parts gives back the text. */
  lemma {:induction false} SplitJoin(s: string, sep: char)
    ensures Join(Split(s, sep), sep) == s
    decreases |s|
  {
    if s != [] {
      var rest := Split(s[1..], sep);
      SplitJoin(s[1..], sep);
      if s[0] != sep {
        if |rest| == 1 {
          assert Split(s, sep) == [[s[0]] + rest[0]];
        } else {
          assert Split(s, sep)[1..] == rest[1..];
        }
      } else {
        assert Split(s, sep)[1..] == rest;
      }
      assert s == [s[0]] + s[1..];
    }
  }

  /** Text without the separator is one part. */
  lemma {:induction false} SplitNoSeparator(w: string, sep: char)
    requires sep !in w
    ensures Split(w, sep) == [w]
    decreases |w|
  {
    if w != [] {
      SplitNoSeparator(w[1..], sep);
      assert w == [w[0]] + w[1..];
    }
  }

  /** The first part is the text before the first separator; the rest is the split of what follows it. */
  lemma {:induction false} SplitAtFirst(w: string, sep: char, rest: string)
    requires sep !in w
    ensures Split(w + [sep] + rest, sep) == [w] + Split(rest, sep)
    decreases |w|
  {
    if w == [] {
      assert [] + [sep] + rest == [sep] + rest;
    } else {
      SplitAtFirst(w[1..], sep, rest);
      assert (w + [sep] + rest)[1..] == w[1..] + [sep] + rest;
      assert w == [w[0]] + w[1..];
    }
  }

  /** `s.slice(0, n)`: the first `n` characters, or all of them when there are fewer. */
  function Prefix(s: string, n: nat): (r: string)
    ensures |r| == if |s| <= n then |s| else n
    ensures r <= s
  {
    if |s| <= n then s else s[..n]
  }

  /** `parts[0] || '0'`: the text before the first dot, or "0" when that is empty. */
  function WholePart(display: string): (r: string)
    ensures r != []
  {
    var parts := Split(display, '.');
    if parts[0] != [] then parts[0] else "0"
  }

  /** `(parts[1] || '00').slice(0, 8)`: the text after the first dot, up to a second one, truncated. */
  function DecimalPart(display: string): (r: string)
    ensures |r| <= ShownDecimals
  {
    var parts := Split(display, '.');
    var fraction := if |parts| > 1 && parts[1] != [] then parts[1] else "00";
    Prefix(fraction, ShownDecimals)
  }

  /** Text with no dot shows its whole text (or "0") and the fraction "00". */
  lemma NoDot(display: string)
    requires '.' !in display
    ensures WholePart(display) == (if display == [] then "0" else display)
    ensures DecimalPart(display) == "00"
  {
    SplitNoSeparator(display, '.');
  }

  /**
   * Text with a dot: the whole part is the text before the first dot (or "0"), and the fraction is
   * a prefix of the text after it, cut at eight characters, never rounded; "00" when nothing follows.
   */
  lemma WithDot(whole: string, after: string)
    requires '.' !in whole
    ensures WholePart(whole + "." + after) == (if whole == [] then "0" else whole)
    ensures Split(after, '.')[0] != [] ==> DecimalPart(whole + "." + after) <= after
    ensures var field := Split(after, '.')[0];
            DecimalPart(whole + "." + after) == if field == [] then "00" else Prefix(field, ShownDecimals)
  {
    SplitAtFirst(whole, '.', after);
    var field := Split(after, '.')[0];
    SplitJoin(after, '.');
    var rest := Split(after, '.');
    if |rest| > 1 {
      assert Join(rest, '.') == field + ['.'] + Join(rest[1..], '.');
    }
    assert field <= after;
  }

  /** Round trip: a display with one dot, a non-empty whole part and at most eight decimals is shown unchanged. */
  lemma RoundTrip(whole: string, fraction: string)
    requires whole != [] && '.' !in whole && '.' !in fraction
    requires 1 <= |fraction| <= ShownDecimals
    ensures WholePart(whole + "." + fraction) + "." + DecimalPart(whole + "." + fraction) == whole + "." + fraction
  {
    WithDot(whole, fraction);
    SplitNoSeparator(fraction, '.');
  }

  predicate IsDigit(c: char) {
    '0' <= c <= '9'
  }

  predicate AllDigits(s: string) {
    forall i :: 0 <= i < |s| ==> IsDigit(s[i])
  }

  /** The value of a string of decimal digits, most significant first. */
  function DigitsValue(s: string): (n: nat)
    requires AllDigits(s)
    ensures s == [] ==> n == 0
    decreases |s|
  {
    if s == [] then 0 else 10 * DigitsValue(s[..|s| - 1]) + (s[|s| - 1] as int - '0' as int)
  }

  function Pow10(n: nat): (p: nat)
    ensures p >= 1
  {
    if n == 0 then 1 else 10 * Pow10(n - 1)
  }

  /** The exact value of `digits.fraction`, the fraction read as `fraction / 10^|fraction|`. */
  function FixedValue(whole: string, fraction: string): real
    requires AllDigits(whole) && AllDigits(fraction)
  {
    DigitsValue(whole) as real + FractionValue(fraction)
  }

  function FractionValue(fraction: string): real
    requires AllDigits(fraction)
  {
    DigitsValue(fraction) as real / Pow10(|fraction|) as real
  }

  /**
   * The number a display text denotes, read exactly where the source uses `parseFloat`: an optional
   * minus sign, then digits with at most one dot and at least one digit. Anything else is `None`,
   * standing for NaN.
   */
  function NumericValue(s: string): (v: Option<real>)
    ensures v.Some? && v.value < 0.0 ==> s != [] && s[0] == '-'
    ensures s == [] ==> v.None?
  {
    if s != [] && s[0] == '-' then
      match UnsignedValue(s[1..])
      case None => None
      case Some(u) => Some(-u)
    else UnsignedValue(s)
  }

  function UnsignedValue(s: string): (v: Option<real>)
    ensures v.Some? ==> v.value >= 0.0
  {
    var parts := Split(s, '.');
    if |parts| == 1 && parts[0] != [] && AllDigits(parts[0]) then
      Some(DigitsValue(parts[0]) as real)
    else if |parts| == 2 && (parts[0] != [] || parts[1] != []) && AllDigits(parts[0]) && AllDigits(parts[1]) then
      Some(FixedValue(parts[0], parts[1]))
    else None
  }

  /** A digit string with one dot denotes its fixed-point value; one without a dot, its integer value. */
  lemma ValueOfDigits(whole: string, fraction: string)
    requires whole != [] && AllDigits(whole) && AllDigits(fraction)
    ensures NumericValue(whole) == Some(DigitsValue(whole) as real)
    ensures NumericValue(whole + "." + fraction) == Some(FixedValue(whole, fraction))
  {
    DigitsHaveNoDot(whole);
    DigitsHaveNoDot(fraction);
    SplitNoSeparator(whole, '.');
    SplitNoSeparator(fraction, '.');
    SplitAtFirst(whole, '.', fraction);
  }

  lemma ShiftDigits(head: int, p: int)
    ensures 10 * (head * p) == head * (10 * p)
  {
  }

  lemma DigitsHaveNoDot(s: string)
    requires AllDigits(s)
    ensures '.' !in s
  {
    assert forall i :: 0 <= i < |s| ==> s[i] != '.' by {
      forall i | 0 <= i < |s| ensures s[i] != '.' {
        assert IsDigit(s[i]);
      }
    }
  }

  /** Digits split anywhere: the value is the head's value shifted left plus the tail's value. */
  lemma {:induction false} DigitsValueSplit(s: string, k: nat)
    requires AllDigits(s) && k <= |s|
    ensures DigitsValue(s) == DigitsValue(s[..k]) * Pow10(|s| - k) + DigitsValue(s[k..])
    ensures DigitsValue(s[k..]) < Pow10(|s| - k)
    decreases |s|
  {
    if k == |s| {
      assert s[..k] == s;
    } else {
      var init := s[..|s| - 1];
      DigitsValueSplit(init, k);
      assert init[..k] == s[..k];
      assert init[k..] == s[k..][..|s| - k - 1];
      assert s[k..][|s| - k - 1] == s[|s| - 1];
      var d := s[|s| - 1] as int - '0' as int;
      var head, tail, p := DigitsValue(s[..k]), DigitsValue(init[k..]), Pow10(|init| - k);
      assert DigitsValue(s[k..]) == 10 * tail + d;
      assert DigitsValue(s) == 10 * DigitsValue(init) + d;
      assert DigitsValue(init) == head * p + tail;
      assert Pow10(|s| - k) == 10 * p;
      calc {
        10 * (head * p + tail) + d;
        { ShiftDigits(head, p); }
        head * (10 * p) + (10 * tail + d);
      }
    }
  }

  /**
   * Cutting the fraction after `n` digits never rounds up: the shown value is at most the full
   * value and less than one unit of the last shown digit below it.
   */
  lemma TruncationNeverRoundsUp(whole: string, fraction: string, n: nat)
    requires AllDigits(whole) && AllDigits(fraction)
    ensures var shown := Prefix(fraction, n);
            FixedValue(whole, shown) <= FixedValue(whole, fraction) < FixedValue(whole, shown) + 1.0 / Pow10(n) as real
  {
    var shown := Prefix(fraction, n);
    if |fraction| <= n {
      assert shown == fraction;
      assert 1.0 / Pow10(n) as real > 0.0;
    } else {
      assert shown == fraction[..n];
      FractionTruncation(fraction, n);
    }
  }

  lemma FractionTruncation(fraction: string, n: nat)
    requires AllDigits(fraction) && n < |fraction|
    ensures FractionValue(fraction[..n]) <= FractionValue(fraction) < FractionValue(fraction[..n]) + 1.0 / Pow10(n) as real
  {
    var m := |fraction| - n;
    DigitsValueSplit(fraction, n);
    PowAdd(n, m);
    ScaledBounds(DigitsValue(fraction[..n]), DigitsValue(fraction[n..]), Pow10(n), Pow10(m), DigitsValue(fraction), Pow10(|fraction|));
  }

  /** In reals: `(h * q + t) / (p * q)` lies in `[h / p, h / p + 1 / p)` when `0 <= t < q`. */
  lemma ScaledBounds(h: nat, t: nat, p: nat, q: nat, d: nat, pq: nat)
    requires p >= 1 && q >= 1 && t < q && d == h * q + t && pq == p * q
    ensures h as real / p as real <= d as real / pq as real < h as real / p as real + 1.0 / p as real
  {
    CastMul(p, q);
    CastMul(h, q);
    ShiftedFraction(h as real, t as real, p as real, q as real);
  }

  /** `(a * q + b) / (p * q)` lies in `[a / p, a / p + 1 / p)` when `0 <= b < q`. */
  lemma ShiftedFraction(a: real, b: real, p: real, q: real)
    requires p >= 1.0 && q >= 1.0 && 0.0 <= b < q
    ensures a / p <= (a * q + b) / (p * q) < a / p + 1.0 / p
  {
    assert (a * q + b) / (p * q) == a / p + b / (p * q);
    assert b / (p * q) < 1.0 / p by {
      assert b / (p * q) * (p * q) == b;
      assert 1.0 / p * (p * q) == q;
    }
  }

  lemma {:induction false} PowAdd(a: nat, b: nat)
    ensures Pow10(a + b) == Pow10(a) * Pow10(b)
  {
    if a > 0 {
      PowAdd(a - 1, b);
    }
  }

  /** The reset text "0.00" and `formatEther(0n)`'s "0" denote the same number, so neither is an increase over the other. */
  lemma ZeroTextsEqual()
    ensures NumericValue("0.00") == NumericValue("0") == Some(0.0)
  {
    ValueOfDigits("0", "00");
    assert "0" + "." + "00" == "0.00";
  }

  /** `parseFloat(a) > parseFloat(b)`, read exactly; a NaN on either side compares false. */
  predicate IsGreater(a: string, b: string): (r: bool)
    ensures r ==> NumericValue(a).Some? && NumericValue(b).Some?
    ensures NumericValue(a) == NumericValue(b) ==> !r
    ensures r ==> a != b
  {
    NumericValue(a).Some? && NumericValue(b).Some? && NumericValue(a).value > NumericValue(b).value
  }

  /**
   * The state behind the pulse: the display text the effect last ran for (`shown`), `prevBalance`,
   * `isIncreasing`, and whether the 200 ms timer is pending.
   */
  datatype Pulse = Pulse(shown: string, prevBalance: string, isIncreasing: bool, timerPending: bool)

  /** The state on mount: `useState(displayBalance)` and `useState(false)`. */
  function InitialPulse(display: string): (p: Pulse)
    ensures p.prevBalance == display && !p.isIncreasing && !p.timerPending
  {
    Pulse(display, display, false, false)
  }

  /**
   * One run of the effect: its cleanup cancels a pending timer; an increase over `prevBalance`
   * raises the flag and arms a new timer, anything else records `display` as `prevBalance` and
   * leaves the flag alone.
   */
  function EffectRun(p: Pulse, display: string): (q: Pulse)
    ensures q.shown == display
    ensures IsGreater(display, p.prevBalance) ==> q.isIncreasing && q.timerPending && q.prevBalance == p.prevBalance
    ensures !IsGreater(display, p.prevBalance) ==>
      q.prevBalance == display && q.isIncreasing == p.isIncreasing && !q.timerPending
  {
    if IsGreater(display, p.prevBalance) then Pulse(display, p.prevBalance, true, true)
    else Pulse(display, display, p.isIncreasing, false)
  }

  /** A render with `display`: the effect runs only when the text differs from the one it last ran for. */
  function OnDisplay(p: Pulse, display: string): (q: Pulse)
    ensures display == p.shown ==> q == p
    ensures display != p.shown ==> q == EffectRun(p, display)
  {
    if display == p.shown then p else EffectRun(p, display)
  }

  /** The 200 ms timer fires: it clears the flag, if it is still pending. */
  function OnExpire(p: Pulse): (q: Pulse)
    ensures p.timerPending ==> !q.isIncreasing && !q.timerPending
    ensures q.shown == p.shown && q.prevBalance == p.prevBalance
    ensures !p.timerPending ==> q == p
  {
    if p.timerPending then Pulse(p.shown, p.prevBalance, false, false) else p
  }

  /** A pending timer always belongs to a raised flag. */
  ghost predicate TimerOnlyWhenRaised(p: Pulse) {
    p.timerPending ==> p.isIncreasing
  }

  /** Both events keep a pending timer tied to a raised flag. */
  lemma TimerOnlyWhenRaisedPreserved(p: Pulse, display: string)
    requires TimerOnlyWhenRaised(p)
    ensures TimerOnlyWhenRaised(OnDisplay(p, display)) && TimerOnlyWhenRaised(OnExpire(p))
  {
  }

  /** An increase left alone for 200 ms ends with the flag down and `prevBalance` still the old baseline. */
  lemma IncreaseThenExpire(p: Pulse, display: string)
    requires display != p.shown && IsGreater(display, p.prevBalance)
    ensures var q := OnExpire(OnDisplay(p, display));
            !q.isIncreasing && !q.timerPending && q.prevBalance == p.prevBalance
  {
  }

  /**
   * When a run records a new `prevBalance` (one of the effect's dependencies) the effect runs once
   * more; that second run changes nothing and arms no timer.
   */
  lemma EffectSettles(p: Pulse, display: string)
    ensures var q := EffectRun(p, display);
            q.prevBalance != p.prevBalance ==> EffectRun(q, display) == q && !q.timerPending
  {
  }

  /**
   * A fall within 200 ms of a rise cancels the timer but does not lower the flag, so it stays raised
   * with no timer left to clear it: "1" to "2" and back to "1".
   */
  lemma FlagOutlivesCancelledTimer()
    ensures var q := OnDisplay(OnDisplay(InitialPulse("1"), "2"), "1");
            q.isIncreasing && !q.timerPending && OnExpire(q) == q
  {
    ValueOfDigits("2", "");
    ValueOfDigits("1", "");
  }

  /** The pulse of one mounted `StreamBalance`. */
  class PulseDetector {
    var shown: string
    var prevBalance: string
    var isIncreasing: bool
    var timerPending: bool

    function State(): Pulse
      reads this
    {
      Pulse(shown, prevBalance, isIncreasing, timerPending)
    }

    constructor (display: string)
      ensures State() == InitialPulse(display)
    {
      shown := display;
      prevBalance := display;
      isIncreasing := false;
      timerPending := false;
    }

    /** A render with the current display text. */
    method Render(display: string)
      modifies this
      ensures State() == OnDisplay(old(State()), display)
    {
      if display != shown {
        shown := display;
        timerPending := false;  // cleanup of the previous run
        if IsGreater(display, prevBalance) {
          isIncreasing := true;
          timerPending := true;
        } else {
          prevBalance := display;
        }
      }
    }

    /** The 200 ms timer fires. */
    method Expire()
      modifies this
      ensures State() == OnExpire(old(State()))
    {
      if timerPending {
        isIncreasing := false;
        timerPending := false;
      }
    }
  }
}
