/** The programmable interval timer and the millisecond clock it drives. */
module Clock {

  const BASE_FREQ: nat := 1193181
  const SLOW_FREQ: nat := 18
  const WORD: nat := 0x1_0000_0000
  const DOUBLE_WORD: nat := 0x1_0000_0000_0000_0000

  /** The frequency divisor for a requested frequency. */
  function Reload(freq: nat): (r: nat)
    ensures 1 <= r < 65536
  {
    if freq > BASE_FREQ then 2
    else if freq <= SLOW_FREQ then 65535
    else
      Low(freq);
      BASE_FREQ / freq + if BASE_FREQ % freq > freq / 2 then 1 else 0
  }

  lemma Low(freq: nat)
    requires SLOW_FREQ < freq <= BASE_FREQ
    ensures 1 <= BASE_FREQ / freq <= 62800
  {
  }

  lemma Grows(a: nat, b: nat, c: nat, d: nat)
    requires a <= b && c <= d
    ensures a * c <= b * d
  {
    assert b * d == a * c + (b - a) * c + b * (d - c);
  }

  function Gap(freq: nat, r: nat): nat {
    if freq * r <= BASE_FREQ then BASE_FREQ - freq * r else freq * r - BASE_FREQ
  }

  /** No other divisor comes closer to the requested frequency's share of the base frequency. */
  lemma ReloadIsClosest(freq: nat, r: nat)
    requires SLOW_FREQ < freq <= BASE_FREQ
    ensures Gap(freq, Reload(freq)) <= Gap(freq, r)
  {
    var q, m := BASE_FREQ / freq, BASE_FREQ % freq;
    assert BASE_FREQ == freq * q + m;
    assert freq * (q + 1) == freq * q + freq;
    if r <= q {
      Grows(freq, freq, r, q);
    } else {
      Grows(freq, freq, q + 1, r);
    }
  }

  /** The clock's advance per tick, in units of 2^-32 milliseconds, as the constructor splits it. */
  function Millis(reload: nat): nat { reload * 1000 / BASE_FREQ }

  function Fractions(reload: nat): (f: nat)
    ensures f < WORD
  {
    reload * 1000 % BASE_FREQ * WORD / BASE_FREQ
  }

  function Advance(reload: nat): nat { Millis(reload) * WORD + Fractions(reload) }

  /** The two parts make up the length of a tick, rounded down. */
  lemma AdvanceIsFloor(reload: nat)
    ensures Advance(reload) == reload * 1000 * WORD / BASE_FREQ
  {
  }

  /** The clock after `n` ticks is never ahead of the time that has passed, and less than `n` units behind:
      the inequalities are between times multiplied by the base frequency. */
  lemma Drift(reload: nat, n: nat)
    ensures n * Advance(reload) * BASE_FREQ <= n * (reload * 1000 * WORD)
    ensures n > 0 ==> n * (reload * 1000 * WORD) < n * Advance(reload) * BASE_FREQ + n * BASE_FREQ
  {
    AdvanceIsFloor(reload);
    var a, t := Advance(reload), reload * 1000 * WORD;
    assert a * BASE_FREQ <= t < a * BASE_FREQ + BASE_FREQ;
    Grows(n, n, a * BASE_FREQ, t);
    assert n * (a * BASE_FREQ) == n * a * BASE_FREQ;
    if n > 0 {
      Grows(n, n, t + 1, a * BASE_FREQ + BASE_FREQ);
      assert n * (t + 1) == n * t + n;
      assert n * (a * BASE_FREQ + BASE_FREQ) == n * (a * BASE_FREQ) + n * BASE_FREQ;
    }
  }

  /** The clock as one number. */
  function Reading(ms: nat, fractions: nat): nat { ms * WORD + fractions }

  /** The clock `n` ticks after a reading; it wraps after 2^32 milliseconds. */
  function ReadingAfter(start: nat, reload: nat, n: nat): nat { (start + n * Advance(reload)) % DOUBLE_WORD }

  /** Whether `sleep` is still waiting at a reading, if it was called for `t` milliseconds at another. */
  predicate Waits(ms: nat, fractions: nat, t: nat, nowMs: nat, nowFractions: nat) {
    var end := (t + ms) % WORD;
    (nowMs == end && nowFractions < fractions) || nowMs < end
  }

  /** When `sleep` returns, the time asked for has passed exactly if the end of the sleep lay before the
      wrap of the clock; otherwise it returns at once. */
  lemma SleepsLongEnough(reload: nat, ms: nat, fractions: nat, t: nat, n: nat)
    requires ms < WORD && fractions < WORD && t < WORD
    requires forall k :: 0 <= k < n ==>
      var r := ReadingAfter(Reading(ms, fractions), reload, k); Waits(ms, fractions, t, r / WORD, r % WORD)
    requires var r := ReadingAfter(Reading(ms, fractions), reload, n); !Waits(ms, fractions, t, r / WORD, r % WORD)
    ensures n * Advance(reload) >= t * WORD <==> ms + t < WORD
    ensures ms + t >= WORD ==> n == 0
  {
    hide Advance, ReadingAfter, Waits;
    if ms + t < WORD {
      WokenAfter(ms, fractions, t, n, n * Advance(reload), reload);
    } else {
      Start(Reading(ms, fractions), reload);
      EndsAtOnce(ms, fractions, t);
    }
  }

  lemma WokenAfter(ms: nat, fractions: nat, t: nat, n: nat, passed: nat, reload: nat)
    requires ms + t < WORD && fractions < WORD && passed == n * Advance(reload)
    requires var r := ReadingAfter(Reading(ms, fractions), reload, n); !Waits(ms, fractions, t, r / WORD, r % WORD)
    ensures passed >= t * WORD
  {
    hide Advance;
    var r := (Reading(ms, fractions) + passed) % DOUBLE_WORD;
    assert r >= Reading(ms, fractions) + t * WORD;
    AtMost(Reading(ms, fractions) + passed);
  }

  lemma EndsAtOnce(ms: nat, fractions: nat, t: nat)
    requires ms < WORD && fractions < WORD && t < WORD && ms + t >= WORD
    ensures !Waits(ms, fractions, t, Reading(ms, fractions) / WORD, Reading(ms, fractions) % WORD)
  {
  }

  lemma Start(s: nat, reload: nat)
    requires s < DOUBLE_WORD
    ensures ReadingAfter(s, reload, 0) == s && 0 * Advance(reload) == 0
  {
    assert 0 * Advance(reload) == 0;
  }

  lemma AtMost(x: nat)
    ensures x % DOUBLE_WORD <= x
  {
  }

  class Pit {
    var reloadValue: nat
    var irqFreq: nat
    var irqMs: nat
    var irqFractions: nat
    var timerMs: nat
    var timerFractions: nat
    /** The number of ticks so far. */
    ghost var ticks: nat

    /** The clock has advanced by exactly one step for each tick, but for its wrap. */
    ghost predicate Valid()
      reads this
    {
      && irqMs == Millis(reloadValue) && irqFractions == Fractions(reloadValue) && 1 <= reloadValue < 65536
      && timerMs < WORD && timerFractions < WORD
      && Reading(timerMs, timerFractions) == ReadingAfter(0, reloadValue, ticks)
    }

    constructor (freq: nat)
      ensures Valid() && ticks == 0 && reloadValue == Reload(freq) && timerMs == 0 && timerFractions == 0
    {
      var reload := Reload(freq);
      reloadValue := reload;
      irqFreq := BASE_FREQ / reload + if BASE_FREQ % reload > reload / 2 then 1 else 0;
      irqMs := reload * 1000 / BASE_FREQ;
      irqFractions := reload * 1000 % BASE_FREQ * WORD / BASE_FREQ;
      timerMs, timerFractions, ticks := 0, 0, 0;
    }

    /** Advance the clock. A sum of fractions that is less than what was added has wrapped. */
    method Tick()
      requires Valid()
      modifies `timerMs, `timerFractions, `ticks
      ensures Valid() && ticks == old(ticks) + 1
    {
      TickReads(reloadValue, ticks, timerMs, timerFractions);
      timerFractions := (timerFractions + irqFractions) % WORD;
      timerMs := (timerMs + irqMs) % WORD;
      timerMs := (timerMs + if timerFractions < irqFractions then 1 else 0) % WORD;
      ticks := ticks + 1;
    }
  }

  lemma TickReads(reload: nat, n: nat, ms: nat, fractions: nat)
    requires ms < WORD && fractions < WORD && Reading(ms, fractions) == ReadingAfter(0, reload, n)
    ensures var f := (fractions + Fractions(reload)) % WORD;
      var m := ((ms + Millis(reload)) % WORD + if f < Fractions(reload) then 1 else 0) % WORD;
      Reading(m, f) == ReadingAfter(0, reload, n + 1)
  {
    var a := Advance(reload);
    assert (n + 1) * a == n * a + a;
    Wrap(n * a, a);
    Carry(ms, fractions, Millis(reload), Fractions(reload));
  }

  /** Adding with the carry taken from the wrapped sum is adding the whole readings. */
  lemma Carry(ms: nat, fractions: nat, addMs: nat, addFractions: nat)
    requires ms < WORD && fractions < WORD && addFractions < WORD
    ensures var f := (fractions + addFractions) % WORD;
      var m := ((ms + addMs) % WORD + if f < addFractions then 1 else 0) % WORD;
      Reading(m, f) == (Reading(ms, fractions) + Reading(addMs, addFractions)) % DOUBLE_WORD
  {
    var f := (fractions + addFractions) % WORD;
    var c := if f < addFractions then 1 else 0;
    assert fractions + addFractions == c * WORD + f;
    var total := ms + addMs + c;
    WrapWord(ms + addMs, c);
    assert total == total / WORD * WORD + total % WORD;
    Remainder(Reading(ms, fractions) + Reading(addMs, addFractions), total / WORD, Reading(total % WORD, f));
  }

  lemma WrapWord(x: nat, c: nat)
    ensures (x + c) % WORD == (x % WORD + c) % WORD
  {
  }

  lemma Remainder(x: nat, q: nat, r: nat)
    requires x == q * DOUBLE_WORD + r && r < DOUBLE_WORD
    ensures x % DOUBLE_WORD == r
  {
  }

  lemma Wrap(x: nat, a: nat)
    ensures (x + a) % DOUBLE_WORD == (x % DOUBLE_WORD + a) % DOUBLE_WORD
  {
  }
}
