/** The per-IP rate limiter. Times are clock readings in nanoseconds, nondecreasing in the order in
    which requests take the lock; the code compares them in whole milliseconds. */
module RateLimiter {
  import opened Options
  import opened Arith
  import opened Cidr

  /** `saturating_duration_since` in whole milliseconds. */
  function MillisSince(now: nat, start: nat): nat {
    if now >= start then (now - start) / 1_000_000 else 0
  }

  /** The shortest time after which a window's whole milliseconds exceed 1000. */
  const WINDOW: nat := 1_001_000_000

  datatype Entry = Entry(start: nat, count: nat)
  datatype Request = Request(ip: IpAddr, now: nat)

  function Cleaned(w: map<IpAddr, Entry>, now: nat): map<IpAddr, Entry> {
    map ip | ip in w && MillisSince(now, w[ip].start) <= 2000 :: w[ip]
  }

  /** One IP's decision, from its entry if it has one. */
  function Decide(max: nat, entry: Option<Entry>, now: nat): (Entry, bool) {
    var e := if entry.Some? then entry.value else Entry(now, 0);
    if MillisSince(now, e.start) > 1000 then (Entry(now, 1), true)
    else if e.count >= max then (e, false)
    else (Entry(e.start, e.count + 1), true)
  }

  function EntryOf(w: map<IpAddr, Entry>, ip: IpAddr): Option<Entry> {
    if ip in w then Some(w[ip]) else None
  }

  /** The limiter's window and verdict after a request; a maximum of 0 switches it off. */
  function Check(max: nat, w: map<IpAddr, Entry>, r: Request): (map<IpAddr, Entry>, bool) {
    if max == 0 then (w, true)
    else
      var clean := Cleaned(w, r.now);
      var (e, ok) := Decide(max, EntryOf(clean, r.ip), r.now);
      (clean[r.ip := e], ok)
  }

  class IpRateLimiter {
    const maxPerSec: nat
    var window: map<IpAddr, Entry>

    constructor (maxPerSec: nat)
      requires maxPerSec < 0x1_0000_0000
      ensures this.maxPerSec == maxPerSec && window == map[]
    {
      this.maxPerSec := maxPerSec;
      window := map[];
    }

    /** The counts fit the `u32` they are kept in. */
    ghost predicate Valid()
      reads this
    {
      maxPerSec < 0x1_0000_0000 && forall ip :: ip in window ==> window[ip].count <= maxPerSec
    }

    method CheckAt(ip: IpAddr, now: nat) returns (ok: bool)
      requires Valid()
      modifies this
      ensures Valid() && (window, ok) == Check(maxPerSec, old(window), Request(ip, now))
    {
      if maxPerSec == 0 { return true; }
      window := map k | k in window && MillisSince(now, window[k].start) <= 2000 :: window[k];
      assert window == Cleaned(old(window), now);
      ghost var clean := window;
      if ip !in window { window := window[ip := Entry(now, 0)]; }
      var entry := window[ip];
      if MillisSince(now, entry.start) > 1000 {
        window := window[ip := Entry(now, 1)];
        assert window == clean[ip := Entry(now, 1)];
        return true;
      }
      if entry.count >= maxPerSec {
        assert window == clean[ip := entry];
        return false;
      }
      window := window[ip := Entry(entry.start, entry.count + 1)];
      assert window == clean[ip := Entry(entry.start, entry.count + 1)];
      return true;
    }
  }

  // ---------- a limiter for one IP ----------

  /** A limiter for one IP that never forgets: its entry and verdict. */
  function SoloStep(max: nat, entry: Option<Entry>, now: nat): (Option<Entry>, bool) {
    if max == 0 then (entry, true)
    else
      var (e, ok) := Decide(max, entry, now);
      (Some(e), ok)
  }

  /** The entry after the given request times, oldest first. */
  function After(max: nat, times: seq<nat>): Option<Entry> {
    if times == [] then None
    else SoloStep(max, After(max, times[..|times| - 1]), times[|times| - 1]).0
  }

  predicate LastAdmitted(max: nat, times: seq<nat>)
    requires times != []
  {
    SoloStep(max, After(max, times[..|times| - 1]), times[|times| - 1]).1
  }

  /** How many of the requests were admitted at times in the closed span from `lo` to `hi`. */
  function Admitted(max: nat, times: seq<nat>, lo: nat, hi: nat): nat {
    if times == [] then 0
    else
      Admitted(max, times[..|times| - 1], lo, hi)
      + (if LastAdmitted(max, times) && lo <= times[|times| - 1] <= hi then 1 else 0)
  }

  predicate Sorted(times: seq<nat>) {
    forall i, j :: 0 <= i < j < |times| ==> times[i] <= times[j]
  }

  /** The most requests of one IP admitted in any closed span of the given length. */
  function Cap(max: nat, length: nat): int {
    if length % 1_001_000_000 == 0 then max * (length / 1_001_000_000 + 1)
    else max * (length / 1_001_000_000 + 2) - 1
  }

  /** How the admissions in the span from `lo` stand when the current window is `e`: none yet; or the
      first window began inside the span; or it began before, and then its first request is outside. */
  predicate Standing(max: nat, e: Entry, lo: nat, admitted: nat, k: nat) {
    || (e.start + WINDOW <= lo && admitted == 0)
    || (e.start >= lo + k * WINDOW && admitted <= max * k + e.count)
    || (e.start + WINDOW > lo + k * WINDOW && admitted + 1 <= max * k + e.count)
  }

  lemma DecideShape(max: nat, entry: Option<Entry>, now: nat)
    requires max >= 1 && (entry.Some? ==> entry.value.start <= now && 1 <= entry.value.count <= max)
    ensures var (e, ok) := Decide(max, entry, now);
            && e.start <= now && 1 <= e.count <= max
            && (entry == None || now - entry.value.start >= WINDOW ==> ok && e == Entry(now, 1))
            && (entry.Some? && now - entry.value.start < WINDOW ==>
                  e.start == entry.value.start && (if ok then e.count == entry.value.count + 1
                                                   else e.count == entry.value.count == max))
  {
  }

  lemma AfterShape(max: nat, times: seq<nat>)
    requires max >= 1 && Sorted(times) && times != []
    ensures After(max, times).Some?
    ensures var e := After(max, times).value; e.start <= times[|times| - 1] && 1 <= e.count <= max
  {
    var before := times[..|times| - 1];
    if before != [] {
      AfterShape(max, before);
      assert before[|before| - 1] <= times[|times| - 1];
    }
    DecideShape(max, After(max, before), times[|times| - 1]);
  }

  lemma StandingOpens(max: nat, lo: nat, now: nat) returns (k: nat)
    requires max >= 1
    ensures Standing(max, Entry(now, 1), lo, if lo <= now then 1 else 0, k)
  {
    k := 0;
  }

  lemma StandingStep(max: nat, e: Entry, lo: nat, admitted: nat, k: nat, now: nat) returns (k': nat)
    requires max >= 1 && 1 <= e.count <= max && e.start <= now && Standing(max, e, lo, admitted, k)
    ensures var (e', ok) := Decide(max, Some(e), now);
            Standing(max, e', lo, admitted + (if ok && lo <= now then 1 else 0), k')
  {
    DecideShape(max, Some(e), now);
    if now - e.start < WINDOW {
      k' := k;
    } else if e.start + WINDOW <= lo && admitted == 0 {
      k' := StandingOpens(max, lo, now);
    } else {
      k' := k + 1;
      assert max * k' == max * k + max;
    }
  }

  lemma StandingAfter(max: nat, times: seq<nat>, lo: nat, hi: nat) returns (k: nat)
    requires max >= 1 && Sorted(times) && times != [] && times[|times| - 1] <= hi
    ensures After(max, times).Some? && Standing(max, After(max, times).value, lo, Admitted(max, times, lo, hi), k)
  {
    var before, now := times[..|times| - 1], times[|times| - 1];
    if before == [] {
      assert Admitted(max, before, lo, hi) == 0;
      k := StandingOpens(max, lo, now);
    } else {
      assert before[|before| - 1] <= now;
      AfterShape(max, before);
      k := StandingAfter(max, before, lo, hi);
      k := StandingStep(max, After(max, before).value, lo, Admitted(max, before, lo, hi), k, now);
    }
  }

  lemma StandingWithinCap(max: nat, e: Entry, lo: nat, length: nat, admitted: nat, k: nat)
    requires max >= 1 && 1 <= e.count <= max && e.start <= lo + length
    requires Standing(max, e, lo, admitted, k)
    ensures admitted <= Cap(max, length)
  {
    var d := length / WINDOW;
    assert max * (d + 2) == max * (d + 1) + max && max * (d + 1) == max * d + max;
    assert max * (k + 1) == max * k + max;
    if e.start + WINDOW <= lo && admitted == 0 {
      MulMonotone(1, d + 1, max);
    } else if e.start >= lo + k * WINDOW && admitted <= max * k + e.count {
      assert k <= d;
      MulMonotone(k, d, max);
    } else if length % WINDOW == 0 {
      assert k <= d;
      MulMonotone(k, d, max);
    } else {
      assert k <= d + 1;
      MulMonotone(k, d + 1, max);
    }
  }

  /** The bound: no closed span of the given length sees more than `Cap` admissions of one IP. */
  lemma {:induction false} SoloWithinCap(max: nat, times: seq<nat>, lo: nat, length: nat)
    requires max >= 1 && Sorted(times)
    ensures Admitted(max, times, lo, lo + length) <= Cap(max, length)
    decreases |times|
  {
    if times == [] {
      MulMonotone(1, length / WINDOW + 1, max);
      MulMonotone(1, length / WINDOW + 2, max);
    } else if times[|times| - 1] > lo + length {
      SoloWithinCap(max, times[..|times| - 1], lo, length);
    } else {
      AfterShape(max, times);
      var k := StandingAfter(max, times, lo, lo + length);
      StandingWithinCap(max, After(max, times).value, lo, length, Admitted(max, times, lo, lo + length), k);
    }
  }

  /** The entry counts the admissions since the window's start. */
  lemma {:induction false} WindowCount(max: nat, times: seq<nat>, hi: nat)
    requires max >= 1 && Sorted(times) && times != [] && times[|times| - 1] <= hi
    ensures After(max, times).Some?
    ensures Admitted(max, times, After(max, times).value.start, hi) == After(max, times).value.count
    decreases |times|
  {
    var before, now := times[..|times| - 1], times[|times| - 1];
    if before == [] {
      DecideShape(max, None, now);
    } else {
      assert before[|before| - 1] <= now;
      AfterShape(max, before);
      DecideShape(max, After(max, before), now);
      if now - After(max, before).value.start < WINDOW {
        WindowCount(max, before, hi);
      } else {
        NothingAfterWindow(max, before, now, hi);
      }
    }
  }

  /** A span that starts when the last window is over counts nothing. */
  lemma {:induction false} NothingAfterWindow(max: nat, times: seq<nat>, lo: nat, hi: nat)
    requires max >= 1 && Sorted(times)
    requires times != [] ==> After(max, times).Some? && After(max, times).value.start + WINDOW <= lo
    ensures Admitted(max, times, lo, hi) == 0
    decreases |times|
  {
    if times != [] {
      var before, now := times[..|times| - 1], times[|times| - 1];
      if before == [] {
        DecideShape(max, None, now);
      } else {
        assert before[|before| - 1] <= now;
        AfterShape(max, before);
        DecideShape(max, After(max, before), now);
        NothingAfterWindow(max, before, lo, hi);
      }
    }
  }

  // ---------- the bound is attained ----------

  /** `n` more requests at time `t`. */
  function WithBurst(times: seq<nat>, t: nat, n: nat): seq<nat> {
    if n == 0 then times else WithBurst(times, t, n - 1) + [t]
  }

  function InSpan(t: nat, lo: nat, hi: nat, n: nat): nat {
    if lo <= t <= hi then n else 0
  }

  lemma Snoc(max: nat, times: seq<nat>, t: nat, lo: nat, hi: nat)
    ensures After(max, times + [t]) == SoloStep(max, After(max, times), t).0
    ensures Admitted(max, times + [t], lo, hi) == Admitted(max, times, lo, hi)
              + (if SoloStep(max, After(max, times), t).1 then InSpan(t, lo, hi, 1) else 0)
  {
    assert (times + [t])[..|times|] == times;
  }

  lemma DecideInWindow(max: nat, start: nat, count: nat, t: nat)
    requires start <= t < start + WINDOW && count < max
    ensures SoloStep(max, Some(Entry(start, count)), t) == (Some(Entry(start, count + 1)), true)
  {
  }

  lemma OneInWindow(max: nat, times: seq<nat>, start: nat, count: nat, t: nat, lo: nat, hi: nat)
    requires After(max, times) == Some(Entry(start, count)) && start <= t < start + WINDOW && count < max
    ensures After(max, times + [t]) == Some(Entry(start, count + 1))
    ensures Admitted(max, times + [t], lo, hi) == Admitted(max, times, lo, hi) + InSpan(t, lo, hi, 1)
  {
    Snoc(max, times, t, lo, hi);
    DecideInWindow(max, start, count, t);
  }

  lemma OneFresh(max: nat, times: seq<nat>, t: nat, lo: nat, hi: nat)
    requires max >= 1
    requires After(max, times).Some? ==> After(max, times).value.start + WINDOW <= t
    ensures After(max, times + [t]) == Some(Entry(t, 1))
    ensures Admitted(max, times + [t], lo, hi) == Admitted(max, times, lo, hi) + InSpan(t, lo, hi, 1)
  {
    Snoc(max, times, t, lo, hi);
  }

  /** A burst into an open window is admitted as far as the window has room. */
  lemma {:induction false} BurstInWindow(
      max: nat, times: seq<nat>, start: nat, count: nat, t: nat, n: nat, lo: nat, hi: nat)
    requires After(max, times) == Some(Entry(start, count)) && start <= t < start + WINDOW && count + n <= max
    ensures After(max, WithBurst(times, t, n)) == Some(Entry(start, count + n))
    ensures Admitted(max, WithBurst(times, t, n), lo, hi) == Admitted(max, times, lo, hi) + InSpan(t, lo, hi, n)
  {
    hide SoloStep;
    if n == 0 {
      assert WithBurst(times, t, n) == times;
    } else {
      var before := WithBurst(times, t, n - 1);
      BurstInWindow(max, times, start, count, t, n - 1, lo, hi);
      assert WithBurst(times, t, n) == before + [t];
      OneInWindow(max, before, start, count + n - 1, t, lo, hi);
    }
  }

  /** A burst of `max` requests at time `t`. */
  function WithFullBurst(max: nat, times: seq<nat>, t: nat): seq<nat>
    requires max >= 1
  {
    WithBurst(times + [t], t, max - 1)
  }

  /** A burst of `max` requests after the window is over is admitted whole. */
  lemma FreshBurst(max: nat, times: seq<nat>, t: nat, lo: nat, hi: nat)
    requires max >= 1 && lo <= t <= hi
    requires After(max, times).Some? ==> After(max, times).value.start + WINDOW <= t
    ensures After(max, WithFullBurst(max, times, t)) == Some(Entry(t, max))
    ensures Admitted(max, WithFullBurst(max, times, t), lo, hi) == Admitted(max, times, lo, hi) + max
  {
    hide After, Admitted, SoloStep, WithBurst;
    OneFresh(max, times, t, lo, hi);
    BurstInWindow(max, times + [t], t, 1, t, max - 1, lo, hi);
  }

  function BurstTime(first: nat, i: nat): nat {
    first + i * WINDOW
  }

  /** `j` bursts of `max` requests, one window length apart, the first at time `first`. */
  function Bursts(max: nat, base: seq<nat>, first: nat, j: nat): seq<nat>
    requires max >= 1
  {
    if j == 0 then base else WithFullBurst(max, Bursts(max, base, first, j - 1), BurstTime(first, j - 1))
  }

  lemma {:induction false} BurstSorted(times: seq<nat>, t: nat, n: nat)
    requires Sorted(times) && forall i :: 0 <= i < |times| ==> times[i] <= t
    ensures Sorted(WithBurst(times, t, n))
    ensures forall i :: 0 <= i < |WithBurst(times, t, n)| ==> WithBurst(times, t, n)[i] <= t
  {
    if n > 0 { BurstSorted(times, t, n - 1); }
  }

  lemma {:induction false} BurstsSorted(max: nat, base: seq<nat>, first: nat, j: nat)
    requires max >= 1 && Sorted(base) && forall i :: 0 <= i < |base| ==> base[i] <= first
    ensures Sorted(Bursts(max, base, first, j))
    ensures forall i :: 0 <= i < |Bursts(max, base, first, j)| ==>
              Bursts(max, base, first, j)[i] <= BurstTime(first, if j > 0 then j - 1 else 0)
  {
    if j > 0 {
      BurstsSorted(max, base, first, j - 1);
      BurstSorted(Bursts(max, base, first, j - 1) + [BurstTime(first, j - 1)], BurstTime(first, j - 1), max - 1);
    }
  }

  function Bulk(max: nat, j: nat): nat {
    if j == 0 then 0 else Bulk(max, j - 1) + max
  }

  lemma BulkIsProduct(max: nat, j: nat)
    ensures Bulk(max, j) == max * j
  {
    if j > 0 {
      BulkIsProduct(max, j - 1);
      assert max * j == max * (j - 1) + max;
    }
  }

  lemma {:induction false} BurstsAdmitted(max: nat, base: seq<nat>, first: nat, j: nat, lo: nat, hi: nat)
    requires max >= 1
    requires After(max, base).Some? ==> After(max, base).value.start + WINDOW <= first
    requires lo <= first && (j > 0 ==> BurstTime(first, j - 1) <= hi)
    ensures Admitted(max, Bursts(max, base, first, j), lo, hi) == Admitted(max, base, lo, hi) + Bulk(max, j)
    ensures var entry := After(max, Bursts(max, base, first, j));
            entry.Some? ==> entry.value.start + WINDOW <= BurstTime(first, j)
  {
    if j > 0 {
      BurstsAdmitted(max, base, first, j - 1, lo, hi);
      BurstStep(max, Bursts(max, base, first, j - 1), first, j - 1, lo, hi);
    }
  }

  lemma BurstStep(max: nat, times: seq<nat>, first: nat, i: nat, lo: nat, hi: nat)
    requires max >= 1 && lo <= first && BurstTime(first, i) <= hi
    requires After(max, times).Some? ==> After(max, times).value.start + WINDOW <= BurstTime(first, i)
    ensures var all := WithFullBurst(max, times, BurstTime(first, i));
            && After(max, all).Some? && After(max, all).value.start + WINDOW <= BurstTime(first, i + 1)
            && Admitted(max, all, lo, hi) == Admitted(max, times, lo, hi) + max
  {
    FreshBurst(max, times, BurstTime(first, i), lo, hi);
  }

  /** One request at time 0, and the rest of its window in its last nanosecond. */
  lemma LateWindow(max: nat, hi: nat) returns (base: seq<nat>)
    requires max >= 1 && WINDOW - 1 <= hi
    ensures Sorted(base) && forall i :: 0 <= i < |base| ==> base[i] <= WINDOW - 1
    ensures After(max, base) == Some(Entry(0, max)) && Admitted(max, base, WINDOW - 1, hi) == max - 1
  {
    base := [0];
    assert After(max, []) == None && Admitted(max, [], WINDOW - 1, hi) == 0;
    hide After, Admitted, SoloStep;
    OneFresh(max, [], 0, WINDOW - 1, hi);
    assert [] + [0] == base;
    BurstInWindow(max, base, 0, 1, WINDOW - 1, max - 1, WINDOW - 1, hi);
    BurstSorted(base, WINDOW - 1, max - 1);
    base := WithBurst(base, WINDOW - 1, max - 1);
  }

  lemma AlignedSpanAttained(max: nat, length: nat)
    requires max >= 1 && length % WINDOW == 0
    ensures var times := Bursts(max, [], 0, length / WINDOW + 1);
            Sorted(times) && Admitted(max, times, 0, length) == Cap(max, length)
  {
    var n := length / WINDOW + 1;
    BurstsSorted(max, [], 0, n);
    BurstsAdmitted(max, [], 0, n, 0, length);
    BulkIsProduct(max, n);
  }

  lemma OtherSpanAttained(max: nat, length: nat) returns (times: seq<nat>)
    requires max >= 1 && length % WINDOW != 0
    ensures Sorted(times) && Admitted(max, times, WINDOW - 1, WINDOW - 1 + length) == Cap(max, length)
  {
    var n := length / WINDOW + 1;
    var hi := WINDOW - 1 + length;
    var base := LateWindow(max, hi);
    times := Bursts(max, base, WINDOW, n);
    BurstsSorted(max, base, WINDOW, n);
    BurstsAdmitted(max, base, WINDOW, n, WINDOW - 1, hi);
    BulkIsProduct(max, n);
    BulkIsProduct(max, n + 1);
  }

  /** For every span length some run reaches the bound, so `Cap` is exact. */
  lemma SoloCapAttained(max: nat, length: nat) returns (times: seq<nat>, lo: nat)
    requires max >= 1
    ensures Sorted(times) && Admitted(max, times, lo, lo + length) == Cap(max, length)
  {
    if length % WINDOW == 0 {
      AlignedSpanAttained(max, length);
      return Bursts(max, [], 0, length / WINDOW + 1), 0;
    }
    times := OtherSpanAttained(max, length);
    lo := WINDOW - 1;
  }
}
