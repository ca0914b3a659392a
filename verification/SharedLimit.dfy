/** The rate limiter under requests from all addresses: what an interleaving is to one of them, and
    the exact number of its requests that a time span can see. */
module SharedLimit {
  import opened Options
  import opened Cidr
  import opened RateLimiter

  // ---------- one IP in an interleaving ----------

  predicate InLockOrder(requests: seq<Request>) {
    forall i, j :: 0 <= i < j < |requests| ==> requests[i].now <= requests[j].now
  }

  /** The shared window after a run. */
  function WindowAfter(max: nat, requests: seq<Request>): map<IpAddr, Entry> {
    if requests == [] then map[]
    else Check(max, WindowAfter(max, requests[..|requests| - 1]), requests[|requests| - 1]).0
  }

  /** The verdict on one more request. */
  predicate Admits(max: nat, requests: seq<Request>, r: Request) {
    Check(max, WindowAfter(max, requests), r).1
  }

  /** The verdicts for `ip`, in an interleaving of requests from all addresses. */
  function VerdictsFor(ip: IpAddr, max: nat, requests: seq<Request>): seq<bool> {
    if requests == [] then []
    else
      var before, r := requests[..|requests| - 1], requests[|requests| - 1];
      VerdictsFor(ip, max, before) + (if r.ip == ip then [Admits(max, before, r)] else [])
  }

  /** When `ip` sent its requests. */
  function TimesOf(ip: IpAddr, requests: seq<Request>): seq<nat> {
    if requests == [] then []
    else
      var r := requests[|requests| - 1];
      TimesOf(ip, requests[..|requests| - 1]) + (if r.ip == ip then [r.now] else [])
  }

  /** How many requests of `ip` the shared limiter admitted in the closed span from `lo` to `hi`. */
  function AdmittedOf(ip: IpAddr, max: nat, requests: seq<Request>, lo: nat, hi: nat): nat {
    if requests == [] then 0
    else
      var before, r := requests[..|requests| - 1], requests[|requests| - 1];
      AdmittedOf(ip, max, before, lo, hi)
      + (if r.ip == ip && Admits(max, before, r) && lo <= r.now <= hi then 1 else 0)
  }

  /** The verdicts of a limiter that serves only one IP and cleans nothing. */
  function SoloVerdicts(max: nat, times: seq<nat>): seq<bool> {
    if times == [] then []
    else SoloVerdicts(max, times[..|times| - 1]) + [LastAdmitted(max, times)]
  }

  // ---------- the cleanup is invisible ----------

  /** The shared window knows what the solitary limiter knows, or has dropped an entry that is
      old enough to count for nothing. */
  predicate Agrees(w: map<IpAddr, Entry>, ip: IpAddr, entry: Option<Entry>, clock: nat) {
    if ip in w then entry == Some(w[ip])
    else entry.Some? ==> MillisSince(clock, entry.value.start) > 2000
  }

  lemma CheckAgrees(max: nat, w: map<IpAddr, Entry>, r: Request, ip: IpAddr, entry: Option<Entry>, clock: nat)
    requires Agrees(w, ip, entry, clock) && clock <= r.now
    ensures var (w', ok) := Check(max, w, r);
            var (entry', ok') := SoloStep(max, entry, r.now);
            if r.ip == ip then ok == ok' && Agrees(w', ip, entry', r.now) else Agrees(w', ip, entry, r.now)
  {
  }

  lemma {:induction false} WindowAgrees(ip: IpAddr, max: nat, requests: seq<Request>, clock: nat)
    requires InLockOrder(requests) && (requests != [] ==> requests[|requests| - 1].now <= clock)
    ensures Agrees(WindowAfter(max, requests), ip, After(max, TimesOf(ip, requests)), clock)
  {
    if requests != [] {
      var before, r := requests[..|requests| - 1], requests[|requests| - 1];
      var times := TimesOf(ip, before);
      WindowAgrees(ip, max, before, r.now);
      CheckAgrees(max, WindowAfter(max, before), r, ip, After(max, times), r.now);
      assert (times + [r.now])[..|times|] == times;
      assert times + [] == times;
    }
  }

  lemma VerdictAgrees(max: nat, requests: seq<Request>, r: Request)
    requires InLockOrder(requests + [r])
    ensures Admits(max, requests, r) <==> LastAdmitted(max, TimesOf(r.ip, requests) + [r.now])
  {
    var all, times := requests + [r], TimesOf(r.ip, requests);
    assert forall i :: 0 <= i < |requests| ==> all[i] == requests[i];
    assert all[|requests|] == r;
    WindowAgrees(r.ip, max, requests, r.now);
    CheckAgrees(max, WindowAfter(max, requests), r, r.ip, After(max, times), r.now);
    assert (times + [r.now])[..|times|] == times;
  }

  /** Dropping stale entries changes no verdict: each IP sees a limiter of its own. */
  lemma {:induction false} CleanupIsInvisible(ip: IpAddr, max: nat, requests: seq<Request>)
    requires InLockOrder(requests)
    ensures VerdictsFor(ip, max, requests) == SoloVerdicts(max, TimesOf(ip, requests))
  {
    if requests != [] {
      var before, r := requests[..|requests| - 1], requests[|requests| - 1];
      var times := TimesOf(ip, before);
      CleanupIsInvisible(ip, max, before);
      assert before + [r] == requests;
      if r.ip == ip {
        VerdictAgrees(max, before, r);
        assert (times + [r.now])[..|times|] == times;
      } else {
        assert times + [] == times;
      }
    }
  }

  lemma {:induction false} AdmissionsAgree(ip: IpAddr, max: nat, requests: seq<Request>, lo: nat, hi: nat)
    requires InLockOrder(requests)
    ensures AdmittedOf(ip, max, requests, lo, hi) == Admitted(max, TimesOf(ip, requests), lo, hi)
  {
    if requests != [] {
      var before, r := requests[..|requests| - 1], requests[|requests| - 1];
      var times := TimesOf(ip, before);
      AdmissionsAgree(ip, max, before, lo, hi);
      assert before + [r] == requests;
      if r.ip == ip {
        VerdictAgrees(max, before, r);
        assert (times + [r.now])[..|times|] == times;
      } else {
        assert times + [] == times;
      }
    }
  }

  lemma {:induction false} TimesSorted(ip: IpAddr, requests: seq<Request>)
    requires InLockOrder(requests)
    ensures Sorted(TimesOf(ip, requests))
    ensures forall t :: t in TimesOf(ip, requests) ==> t <= requests[|requests| - 1].now
    ensures requests == [] ==> TimesOf(ip, requests) == []
  {
    if requests != [] {
      var before, r := requests[..|requests| - 1], requests[|requests| - 1];
      var times, all := TimesOf(ip, before), TimesOf(ip, requests);
      TimesSorted(ip, before);
      assert before != [] ==> before[|before| - 1].now <= r.now;
      assert times + [] == times;
      forall i, j | 0 <= i < j < |all| ensures all[i] <= all[j] {
        assert times != [] ==> times[i] in times;
      }
    }
  }

  // ---------- the cap ----------

  /** The bound: in every run, no closed span of the given length sees more than `Cap` admissions
      of one IP. */
  lemma AdmittedWithinCap(ip: IpAddr, max: nat, requests: seq<Request>, lo: nat, length: nat)
    requires max >= 1 && InLockOrder(requests)
    ensures AdmittedOf(ip, max, requests, lo, lo + length) <= Cap(max, length)
  {
    AdmissionsAgree(ip, max, requests, lo, lo + length);
    TimesSorted(ip, requests);
    SoloWithinCap(max, TimesOf(ip, requests), lo, length);
  }

  function RequestsAt(ip: IpAddr, times: seq<nat>): seq<Request> {
    seq(|times|, i requires 0 <= i < |times| => Request(ip, times[i]))
  }

  lemma {:induction false} TimesOfRequests(ip: IpAddr, times: seq<nat>)
    ensures TimesOf(ip, RequestsAt(ip, times)) == times
  {
    if times != [] {
      var front := times[..|times| - 1];
      TimesOfRequests(ip, front);
      assert RequestsAt(ip, times)[..|front|] == RequestsAt(ip, front);
    }
  }

  /** For every address and span length some run reaches the bound, so `Cap` is exact. */
  lemma CapIsAttained(ip: IpAddr, max: nat, length: nat) returns (requests: seq<Request>, lo: nat)
    requires max >= 1
    ensures InLockOrder(requests) && AdmittedOf(ip, max, requests, lo, lo + length) == Cap(max, length)
  {
    var times: seq<nat>;
    times, lo := SoloCapAttained(max, length);
    requests := RequestsAt(ip, times);
    TimesOfRequests(ip, times);
    AdmissionsAgree(ip, max, requests, lo, lo + length);
  }

  function AdmittedInSecond(ip: IpAddr, max: nat, requests: seq<Request>, from: nat): nat {
    AdmittedOf(ip, max, requests, from, from + 1_000_000_000)
  }

  /** The configured cap per second holds for an address in every second of every run exactly when
      it is 1; in general a second can see `2 * max - 1` of its requests, and no more. */
  lemma PerSecondCapIff(ip: IpAddr, max: nat)
    requires max >= 1
    ensures forall requests, from :: InLockOrder(requests) ==> AdmittedInSecond(ip, max, requests, from) <= 2 * max - 1
    ensures (forall requests, from :: InLockOrder(requests) ==> AdmittedInSecond(ip, max, requests, from) <= max)
            <==> max == 1
  {
    assert Cap(max, 1_000_000_000) == 2 * max - 1;
    forall requests, from | InLockOrder(requests)
      ensures AdmittedInSecond(ip, max, requests, from) <= 2 * max - 1
    {
      AdmittedWithinCap(ip, max, requests, from, 1_000_000_000);
    }
    var requests, from := CapIsAttained(ip, max, 1_000_000_000);
    assert AdmittedInSecond(ip, max, requests, from) == 2 * max - 1;
  }

  /** A request is refused exactly when its IP has a window that began less than 1001 ms ago and
      `max` requests of that IP were admitted since. */
  lemma RefusedIffFull(max: nat, requests: seq<Request>, r: Request)
    requires InLockOrder(requests + [r])
    ensures var w := WindowAfter(max, requests);
            !Admits(max, requests, r)
            <==> max >= 1 && r.ip in w && w[r.ip].start <= r.now < w[r.ip].start + 1_001_000_000
                 && AdmittedOf(r.ip, max, requests, w[r.ip].start, r.now) == max
  {
    if max >= 1 { RefusedWhenFull(max, requests, r); }
  }

  lemma RefusedWhenFull(max: nat, requests: seq<Request>, r: Request)
    requires max >= 1 && InLockOrder(requests + [r])
    ensures var w := WindowAfter(max, requests);
            !Admits(max, requests, r)
            <==> r.ip in w && w[r.ip].start <= r.now < w[r.ip].start + WINDOW
                 && AdmittedOf(r.ip, max, requests, w[r.ip].start, r.now) == max
  {
    var all, w, times := requests + [r], WindowAfter(max, requests), TimesOf(r.ip, requests);
    assert forall i :: 0 <= i < |requests| ==> all[i] == requests[i];
    assert all[|requests|] == r;
    WindowAgrees(r.ip, max, requests, r.now);
    TimesSorted(r.ip, requests);
    if r.ip in w {
      assert times != [];
      assert times[|times| - 1] in times;
      AfterShape(max, times);
      WindowCount(max, times, r.now);
      AdmissionsAgree(r.ip, max, requests, w[r.ip].start, r.now);
    }
  }

  /** After a request the window holds its own IP, and of the others exactly those whose window began
      less than 2001 ms ago, as they were; a limiter that is switched off holds nothing. */
  lemma WindowHolds(max: nat, requests: seq<Request>, r: Request, ip: IpAddr)
    ensures var before, after := WindowAfter(max, requests), WindowAfter(max, requests + [r]);
            && (max == 0 ==> after == map[])
            && (max >= 1 && ip != r.ip ==>
                  (ip in after <==> ip in before && r.now - before[ip].start < 2_001_000_000)
                  && (ip in after ==> after[ip] == before[ip]))
            && (max >= 1 ==> r.ip in after)
  {
    assert (requests + [r])[..|requests|] == requests;
    if max == 0 { SwitchedOff(requests); }
  }

  lemma {:induction false} SwitchedOff(requests: seq<Request>)
    ensures WindowAfter(0, requests) == map[]
  {
    if requests != [] { SwitchedOff(requests[..|requests| - 1]); }
  }
}
