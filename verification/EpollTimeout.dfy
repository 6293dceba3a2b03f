/** Deadlines of callbacks: setting them (src/evloop.c), firing them and turning them into the argument of
    epoll_wait() (src/epoll.c). Integers are unbounded here, so the wrap-around of uint64_t is written out. */
module EpollTimeout {
  import opened Wrappers
  import opened Sequences
  import Interest = EpollInterest

  datatype Timespec = Timespec(sec: int, nsec: int)

  const SECOND := 1_000_000_000
  const U64 := 0x1_0000_0000_0000_0000
  const INT32_MAX := 0x7fff_ffff
  const INT64_MAX := 0x7fff_ffff_ffff_ffff

  /** The theoretical maximum timestamp of the scan. */
  const MAX_TS := Timespec(SECOND, SECOND - 1)
  const CAP := SECOND * SECOND

  function Ns(ts: Timespec): int { ts.sec * SECOND + ts.nsec }

  predicate Normalised(ts: Timespec) { 0 <= ts.sec && 0 <= ts.nsec < SECOND }

  /** CRTX_CMP_TIMESPEC: seconds first, then nanoseconds; only the sign is used. */
  function Compare(a: Timespec, b: Timespec): int {
    if a.sec != b.sec then a.sec - b.sec else a.nsec - b.nsec
  }

  /** CRTX_timespec2uint64. */
  function ToU64(ts: Timespec): int { Ns(ts) % U64 }

  type EventFlags = set<Interest.EventFlag>

  /** The fields of a callback that concern its deadline; flags are those that its handler asks for. */
  datatype Deadline = Deadline(enabled: bool, ts: Timespec, active: bool, flags: EventFlags)

  // ------------------------------------------------------------------------------------ the scan

  /** What the scan carries: the time to sleep in nanoseconds and whether a callback has decided it. */
  datatype Scan = Scan(timeout: int, decided: bool)

  /** now + timeout, with the overflow of tv_nsec carried once and only if it exceeds one second. */
  function Later(now: Timespec, timeout: int): Timespec {
    var sec := now.sec + timeout / SECOND;
    var nsec := now.nsec + timeout % SECOND;
    if nsec > SECOND then Timespec(sec + 1, nsec - SECOND) else Timespec(sec, nsec)
  }

  /** One callback of the nested scan. */
  function ScanOne(now: Timespec, acc: Scan, d: Deadline): Scan {
    if !d.enabled then acc
    else if Compare(d.ts, now) <= 0 then Scan(0, true)
    else if Compare(d.ts, Later(now, acc.timeout)) < 0 then
      if Compare(MAX_TS, d.ts) < 0 then Scan(CAP, true)
      else Scan((ToU64(d.ts) - ToU64(now)) % U64, true)
    else acc
  }

  function ScanCallbacks(now: Timespec, acc: Scan, cbs: seq<Deadline>): Scan
  {
    if cbs == [] then acc else ScanOne(now, ScanCallbacks(now, acc, cbs[..|cbs| - 1]), cbs[|cbs| - 1])
  }

  /** Once there is no time left to sleep, the remaining descriptors are not looked at. */
  function ScanFds(now: Timespec, acc: Scan, fds: seq<seq<Deadline>>): Scan
  {
    if fds == [] then acc
    else
      var before := ScanFds(now, acc, fds[..|fds| - 1]);
      if before.timeout == 0 then before else ScanCallbacks(now, before, fds[|fds| - 1])
  }

  /** Where the scan starts; timeout is the field epl->timeout. */
  function ScanStart(timeout: int): Scan {
    Scan(if timeout >= 0 then timeout else U64 - 1, false)
  }

  /** Leaving the inner loop at a deadline that has passed skips nothing that could change the result. */
  lemma {:induction false} PassedDeadlineDecides(now: Timespec, cbs: seq<Deadline>)
    requires Normalised(now)
    ensures ScanCallbacks(now, Scan(0, true), cbs) == Scan(0, true)
  {
    if cbs != [] { PassedDeadlineDecides(now, cbs[..|cbs| - 1]); }
  }

  lemma {:induction false} SplitCallbacks(now: Timespec, acc: Scan, cbs: seq<Deadline>, k: nat)
    requires k <= |cbs|
    ensures ScanCallbacks(now, acc, cbs) == ScanCallbacks(now, ScanCallbacks(now, acc, cbs[..k]), cbs[k..])
    decreases |cbs|
  {
    if k == |cbs| {
      assert cbs[..k] == cbs;
    } else {
      var init := cbs[..|cbs| - 1];
      SplitCallbacks(now, acc, init, k);
      assert init[..k] == cbs[..k] && init[k..] == cbs[k..][..|cbs[k..]| - 1];
    }
  }

  lemma {:induction false} ZeroEndsFds(now: Timespec, acc: Scan, fds: seq<seq<Deadline>>, k: nat)
    requires k <= |fds| && ScanFds(now, acc, fds[..k]).timeout == 0
    ensures ScanFds(now, acc, fds) == ScanFds(now, acc, fds[..k])
    decreases |fds|
  {
    if k == |fds| {
      assert fds[..k] == fds;
    } else {
      var init := fds[..|fds| - 1];
      assert init[..k] == fds[..k];
      ZeroEndsFds(now, acc, init, k);
    }
  }

  /** The argument of epoll_wait(), in milliseconds. */
  function WaitMs(scan: Scan, timeout: int, phaseOut: bool): int {
    if phaseOut then 0
    else if !scan.decided then timeout
    else if scan.timeout / 1_000_000 > INT32_MAX then INT32_MAX
    else if scan.timeout / 1_000_000 == 0 then 1
    else scan.timeout / 1_000_000
  }

  /** While the loop is phased out a wait does not block. Otherwise, with the default timeout, it blocks without
      limit if and only if no deadline is enabled. */
  lemma BlocksForEverIff(now: Timespec, fds: seq<seq<Deadline>>, phaseOut: bool)
    requires Normalised(now) && forall d :: Has(fds, d) ==> NotAboveCap(d)
    ensures var ms := WaitMs(ScanFds(now, ScanStart(-1), fds), -1, phaseOut);
            && (phaseOut ==> ms == 0)
            && (ms == -1 <==> !phaseOut && !exists d :: Has(fds, d))
  {
    ScanIsEarliestDeadline(now, fds);
  }

  /** The two nested loops with their early exits. */
  method NextWait(fds: seq<seq<Deadline>>, now: Timespec, eplTimeout: int, phaseOut: bool)
    returns (timeout: int, timeoutSet: bool, ms: int)
    requires Normalised(now)
    ensures Scan(timeout, timeoutSet) == ScanFds(now, ScanStart(eplTimeout), fds)
    ensures ms == WaitMs(Scan(timeout, timeoutSet), eplTimeout, phaseOut)
    ensures phaseOut ==> ms == 0
  {
    var start := ScanStart(eplTimeout);
    timeout := if eplTimeout >= 0 then eplTimeout else U64 - 1;
    timeoutSet := false;
    var i := 0;
    while i < |fds|
      invariant 0 <= i <= |fds|
      invariant Scan(timeout, timeoutSet) == ScanFds(now, start, fds[..i])
    {
      if timeout == 0 { break; }
      ghost var before := Scan(timeout, timeoutSet);
      var cbs := fds[i];
      var j := 0;
      while j < |cbs|
        invariant 0 <= j <= |cbs|
        invariant Scan(timeout, timeoutSet) == ScanCallbacks(now, before, cbs[..j])
      {
        var d := cbs[j];
        assert cbs[..j + 1][..j] == cbs[..j];
        if d.enabled {
          if Compare(d.ts, now) <= 0 {
            timeoutSet := true;
            timeout := 0;
            PassedDeadlineDecides(now, cbs[j + 1..]);
            SplitCallbacks(now, before, cbs, j + 1);
            break;
          } else if Compare(d.ts, Later(now, timeout)) < 0 {
            timeoutSet := true;
            if Compare(MAX_TS, d.ts) < 0 {
              timeout := CAP;
            } else {
              timeout := (ToU64(d.ts) - ToU64(now)) % U64;
            }
          }
        }
        j := j + 1;
      }
      assert j == |cbs| ==> cbs[..j] == cbs;
      assert fds[..i + 1][..i] == fds[..i];
      i := i + 1;
    }
    if i < |fds| { ZeroEndsFds(now, start, fds, i); }
    assert fds[..|fds|] == fds;
    if timeoutSet {
      ms := if timeout / 1_000_000 > INT32_MAX then INT32_MAX else timeout / 1_000_000;
      if ms == 0 { ms := 1; }
    } else {
      ms := eplTimeout;
    }
    if phaseOut { ms := 0; }
  }

  // ------------------------------------------------------------------------- what the scan computes

  /** Nanoseconds until the deadline, zero if it has passed. */
  function Delay(now: Timespec, d: Deadline): nat {
    if Ns(d.ts) <= Ns(now) then 0 else Ns(d.ts) - Ns(now)
  }

  predicate NotAboveCap(d: Deadline) {
    Normalised(d.ts) && Ns(d.ts) <= Ns(MAX_TS)
  }

  lemma CompareIsOrder(a: Timespec, b: Timespec)
    requires Normalised(a) && Normalised(b)
    ensures Compare(a, b) < 0 <==> Ns(a) < Ns(b)
    ensures Compare(a, b) <= 0 <==> Ns(a) <= Ns(b)
  {
  }

  /** Although a nanosecond count of exactly one second is not carried, the comparison with the later
      timestamp agrees with the comparison of nanosecond counts. */
  lemma LaterIsSum(now: Timespec, timeout: int, ts: Timespec)
    requires Normalised(now) && Normalised(ts) && 0 <= timeout
    ensures Compare(ts, Later(now, timeout)) < 0 <==> Ns(ts) < Ns(now) + timeout
  {
    var sec := now.sec + timeout / SECOND;
    var nsec := now.nsec + timeout % SECOND;
    assert Ns(now) + timeout == sec * SECOND + nsec;
    if nsec > SECOND {
      CompareIsOrder(ts, Timespec(sec + 1, nsec - SECOND));
    } else if nsec < SECOND {
      CompareIsOrder(ts, Timespec(sec, nsec));
    }
  }

  /** The sleep computed so far: nothing decided, or a delay within the cap. */
  predicate Plausible(acc: Scan) {
    if acc.decided then 0 <= acc.timeout <= Ns(MAX_TS) else acc.timeout == U64 - 1
  }

  lemma Modulo(v: int, r: int, k: int)
    requires v == r + U64 * k && 0 <= r < U64
    ensures v % U64 == r
  {
  }

  /** The difference of the wrapped nanosecond counts is the difference of the counts. */
  lemma WrappedDifference(now: Timespec, ts: Timespec)
    requires 0 <= Ns(ts) - Ns(now) < U64
    ensures (ToU64(ts) - ToU64(now)) % U64 == Ns(ts) - Ns(now)
  {
    var a, b := Ns(ts) / U64, Ns(now) / U64;
    assert ToU64(ts) == Ns(ts) - U64 * a && ToU64(now) == Ns(now) - U64 * b;
    Modulo(ToU64(ts) - ToU64(now), Ns(ts) - Ns(now), b - a);
  }

  lemma OneCallbackTakesMinimum(now: Timespec, acc: Scan, d: Deadline)
    requires Normalised(now) && Plausible(acc) && (d.enabled ==> NotAboveCap(d))
    ensures Plausible(ScanOne(now, acc, d))
    ensures ScanOne(now, acc, d) ==
            if d.enabled then Scan(if Delay(now, d) < acc.timeout then Delay(now, d) else acc.timeout, true) else acc
  {
    if d.enabled {
      CompareIsOrder(d.ts, now);
      CompareIsOrder(MAX_TS, d.ts);
      LaterIsSum(now, acc.timeout, d.ts);
      if Ns(now) < Ns(d.ts) { WrappedDifference(now, d.ts); }
    }
  }

  /** acc is the earliest enabled deadline of cbs as seen from now, or before if that is earlier. */
  ghost predicate EarliestOfCallbacks(now: Timespec, before: Scan, acc: Scan, cbs: seq<Deadline>) {
    && (acc.decided <==> before.decided || exists j :: 0 <= j < |cbs| && cbs[j].enabled)
    && acc.timeout <= before.timeout
    && (forall j :: 0 <= j < |cbs| && cbs[j].enabled ==> acc.timeout <= Delay(now, cbs[j]))
    && (acc == before || exists j :: 0 <= j < |cbs| && cbs[j].enabled && acc.timeout == Delay(now, cbs[j]))
  }

  lemma {:induction false} CallbacksTakeMinimum(now: Timespec, before: Scan, cbs: seq<Deadline>)
    requires Normalised(now) && Plausible(before)
    requires forall j :: 0 <= j < |cbs| && cbs[j].enabled ==> NotAboveCap(cbs[j])
    ensures Plausible(ScanCallbacks(now, before, cbs))
    ensures EarliestOfCallbacks(now, before, ScanCallbacks(now, before, cbs), cbs)
  {
    if cbs != [] {
      var init := cbs[..|cbs| - 1];
      var acc := ScanCallbacks(now, before, init);
      var last := cbs[|cbs| - 1];
      CallbacksTakeMinimum(now, before, init);
      OneCallbackTakesMinimum(now, acc, last);
      if exists j :: 0 <= j < |init| && init[j].enabled {
        var j :| 0 <= j < |init| && init[j].enabled;
        assert cbs[j].enabled;
      }
      if acc != before {
        var j :| 0 <= j < |init| && init[j].enabled && acc.timeout == Delay(now, init[j]);
        assert cbs[j] == init[j];
      }
    }
  }

  ghost predicate Has(fds: seq<seq<Deadline>>, d: Deadline) {
    d.enabled && exists i :: 0 <= i < |fds| && d in fds[i]
  }

  ghost predicate Earliest(now: Timespec, acc: Scan, fds: seq<seq<Deadline>>) {
    && (acc.decided <==> exists d :: Has(fds, d))
    && (forall d :: Has(fds, d) ==> acc.timeout <= Delay(now, d))
    && (acc.decided ==> exists d :: Has(fds, d) && acc.timeout == Delay(now, d))
  }

  /** With the default timeout of the loop, the nested scan computes the time to the earliest enabled
      deadline, zero if that has passed, and decides nothing if no deadline is enabled. */
  lemma {:induction false} ScanIsEarliestDeadline(now: Timespec, fds: seq<seq<Deadline>>)
    requires Normalised(now)
    requires forall d :: Has(fds, d) ==> NotAboveCap(d)
    ensures Plausible(ScanFds(now, ScanStart(-1), fds))
    ensures Earliest(now, ScanFds(now, ScanStart(-1), fds), fds)
  {
    if fds != [] {
      var init := fds[..|fds| - 1];
      var cbs := fds[|fds| - 1];
      forall d | Has(init, d) ensures Has(fds, d) {
        var i :| 0 <= i < |init| && d in init[i];
        assert d in fds[i];
      }
      forall d: Deadline | d.enabled && d in cbs ensures Has(fds, d) {
        assert d in fds[|fds| - 1];
      }
      assert forall d :: Has(fds, d) ==> Has(init, d) || d in cbs;
      var before := ScanFds(now, ScanStart(-1), init);
      ScanIsEarliestDeadline(now, init);
      CallbacksTakeMinimum(now, before, cbs);
    }
  }

  /** A decided sleep is rounded down to milliseconds but lasts at least one, and it fits in int32_t. */
  lemma WaitIsBounded(scan: Scan)
    requires scan.decided && 0 <= scan.timeout
    ensures var ms := WaitMs(scan, -1, false);
            && 1 <= ms <= INT32_MAX
            && (ms == 1 || ms * 1_000_000 <= scan.timeout)
            && (ms == INT32_MAX || scan.timeout < (ms + 1) * 1_000_000)
  {
  }

  // ------------------------------------------------------------------------- without the assumptions

  /** No enabled deadline is earlier than e, which is one of them; all are normalised. */
  ghost predicate IsEarliest(e: Deadline, fds: seq<seq<Deadline>>) {
    Has(fds, e) && forall d :: Has(fds, d) ==> Normalised(d.ts) && Ns(e.ts) <= Ns(d.ts)
  }

  ghost predicate NotBefore(e: Deadline, d: Deadline) {
    d.enabled ==> Normalised(d.ts) && Ns(e.ts) <= Ns(d.ts)
  }

  /** What the scan can carry while no deadline is earlier than e; start is where it began. */
  ghost predicate Unsettled(now: Timespec, start: int, e: Deadline, acc: Scan) {
    && 0 <= acc.timeout < U64 && (acc.timeout == 0 ==> acc.decided)
    && if Delay(now, e) == 0 then true
       else if start <= Delay(now, e) then acc == Scan(start, false)
       else
         || acc == Scan(start, false)
         || (acc.decided && (acc.timeout == CAP || (Ns(e.ts) <= Ns(MAX_TS) && Delay(now, e) <= acc.timeout)))
  }

  /** What it carries once it has seen e. */
  ghost predicate Settled(now: Timespec, start: int, e: Deadline, acc: Scan) {
    if Delay(now, e) == 0 then acc == Scan(0, true)
    else if start <= Delay(now, e) then acc == Scan(start, false)
    else if Ns(MAX_TS) < Ns(e.ts) then acc == Scan(CAP, true)
    else acc.decided && (acc.timeout == Delay(now, e) || (acc.timeout == CAP && CAP <= Delay(now, e)))
  }

  /** One callback of the scan, by what its deadline is in nanoseconds. */
  lemma ScanOneValue(now: Timespec, acc: Scan, d: Deadline)
    requires Normalised(now) && Normalised(d.ts) && d.enabled && 0 <= acc.timeout < U64
    ensures ScanOne(now, acc, d) ==
            if Delay(now, d) == 0 then Scan(0, true)
            else if acc.timeout <= Delay(now, d) then acc
            else if Ns(MAX_TS) < Ns(d.ts) then Scan(CAP, true)
            else Scan(Delay(now, d), true)
  {
    CompareIsOrder(d.ts, now);
    CompareIsOrder(MAX_TS, d.ts);
    LaterIsSum(now, acc.timeout, d.ts);
    if 0 < Delay(now, d) < U64 { WrappedDifference(now, d.ts); }
  }

  lemma ScanOneSettles(now: Timespec, start: int, e: Deadline, acc: Scan, d: Deadline)
    requires Normalised(now) && Normalised(e.ts) && e.enabled && 0 < start < U64 && NotBefore(e, d)
    requires Unsettled(now, start, e, acc)
    ensures Unsettled(now, start, e, ScanOne(now, acc, d))
    ensures Settled(now, start, e, acc) || d == e ==> Settled(now, start, e, ScanOne(now, acc, d))
  {
    if d.enabled { ScanOneValue(now, acc, d); }
  }

  lemma {:induction false} ScanCallbacksSettle(now: Timespec, start: int, e: Deadline, acc: Scan, cbs: seq<Deadline>)
    requires Normalised(now) && Normalised(e.ts) && e.enabled && 0 < start < U64 && Unsettled(now, start, e, acc)
    requires forall j :: 0 <= j < |cbs| ==> NotBefore(e, cbs[j])
    ensures Unsettled(now, start, e, ScanCallbacks(now, acc, cbs))
    ensures Settled(now, start, e, acc) || e in cbs ==> Settled(now, start, e, ScanCallbacks(now, acc, cbs))
  {
    if cbs != [] {
      var init, last := cbs[..|cbs| - 1], cbs[|cbs| - 1];
      assert cbs == init + [last];
      ScanCallbacksSettle(now, start, e, acc, init);
      ScanOneSettles(now, start, e, ScanCallbacks(now, acc, init), last);
    }
  }

  /** The early exit at zero is taken only when nothing can change any more. */
  lemma ZeroIsSettled(now: Timespec, start: int, e: Deadline, acc: Scan)
    requires 0 < start && Unsettled(now, start, e, acc) && acc.timeout == 0
    ensures Settled(now, start, e, acc)
  {
  }

  lemma {:induction false} ScanFdsSettle(now: Timespec, start: int, e: Deadline, fds: seq<seq<Deadline>>)
    requires Normalised(now) && Normalised(e.ts) && e.enabled && 0 < start < U64
    requires forall i, j :: 0 <= i < |fds| && 0 <= j < |fds[i]| ==> NotBefore(e, fds[i][j])
    ensures Unsettled(now, start, e, ScanFds(now, Scan(start, false), fds))
    ensures Has(fds, e) ==> Settled(now, start, e, ScanFds(now, Scan(start, false), fds))
  {
    if fds != [] {
      var init, cbs := fds[..|fds| - 1], fds[|fds| - 1];
      var before := ScanFds(now, Scan(start, false), init);
      ScanFdsSettle(now, start, e, init);
      if before.timeout == 0 {
        ZeroIsSettled(now, start, e, before);
      } else {
        ScanCallbacksSettle(now, start, e, before, cbs);
        assert Has(fds, e) ==> Has(init, e) || e in cbs;
      }
    }
  }

  lemma EarliestSettles(now: Timespec, start: int, e: Deadline, fds: seq<seq<Deadline>>)
    requires Normalised(now) && IsEarliest(e, fds) && 0 < start < U64
    ensures Settled(now, start, e, ScanFds(now, Scan(start, false), fds))
  {
    forall i, j | 0 <= i < |fds| && 0 <= j < |fds[i]| ensures NotBefore(e, fds[i][j]) {
      if fds[i][j].enabled { assert Has(fds, fds[i][j]); }
    }
    ScanFdsSettle(now, start, e, fds);
  }

  predicate SleepsTooLong(now: Timespec, d: Deadline, ms: int) {
    ms < 0 || (ms > 1 && ms * 1_000_000 > Delay(now, d))
  }

  /** With the default timeout, for any descriptors and callbacks: the loop oversleeps the earliest enabled
      deadline if and only if that is above the cap and either nearer than the longest wait or beyond the range
      of the scan. */
  lemma OversleepsAboveCapIff(now: Timespec, fds: seq<seq<Deadline>>, e: Deadline)
    requires Normalised(now) && IsEarliest(e, fds)
    ensures SleepsTooLong(now, e, WaitMs(ScanFds(now, ScanStart(-1), fds), -1, false)) <==>
            && Ns(MAX_TS) < Ns(e.ts)
            && (0 < Delay(now, e) < INT32_MAX * 1_000_000 || U64 - 1 <= Delay(now, e))
  {
    EarliestSettles(now, U64 - 1, e, fds);
    SettledWait(now, U64 - 1, e, ScanFds(now, ScanStart(-1), fds), -1);
  }

  /** A configured timeout is given to epoll_wait() in milliseconds but bounds the scan in nanoseconds. With it,
      for any descriptors and callbacks, the earliest enabled deadline is overslept if and only if it lies
      between that many nanoseconds and milliseconds, or is above the cap and nearer than the nanoseconds. */
  lemma OversleepsWithConfiguredTimeoutIff(now: Timespec, fds: seq<seq<Deadline>>, e: Deadline, timeout: nat)
    requires Normalised(now) && IsEarliest(e, fds) && timeout <= INT32_MAX
    ensures SleepsTooLong(now, e, WaitMs(ScanFds(now, ScanStart(timeout), fds), timeout, false)) <==>
            || 1 < timeout <= Delay(now, e) < timeout * 1_000_000
            || (Ns(MAX_TS) < Ns(e.ts) && 0 < Delay(now, e) < timeout)
  {
    if timeout == 0 {
      ZeroStaysZero(now, fds);
    } else {
      EarliestSettles(now, timeout, e, fds);
      SettledWait(now, timeout, e, ScanFds(now, ScanStart(timeout), fds), timeout);
    }
  }

  lemma {:induction false} ZeroStaysZero(now: Timespec, fds: seq<seq<Deadline>>)
    ensures ScanFds(now, Scan(0, false), fds) == Scan(0, false)
  {
    if fds != [] { ZeroStaysZero(now, fds[..|fds| - 1]); }
  }

  /** The wait that follows from a settled scan. */
  lemma SettledWait(now: Timespec, start: int, e: Deadline, acc: Scan, timeout: int)
    requires Settled(now, start, e, acc) && 0 < start < U64
    requires if timeout == -1 then start == U64 - 1 else start == timeout <= INT32_MAX
    ensures SleepsTooLong(now, e, WaitMs(acc, timeout, false)) <==>
            || (start <= Delay(now, e) && (timeout < 0 || (1 < timeout && Delay(now, e) < timeout * 1_000_000)))
            || (Ns(MAX_TS) < Ns(e.ts) && 0 < Delay(now, e) < start && Delay(now, e) < INT32_MAX * 1_000_000)
  {
    if acc.decided { WaitIsBounded(acc); }
  }

  // ------------------------------------------------------------------------------- setting deadlines

  /** The deadline that crtx_evloop_set_timeout_rel() stores; timeMax is TIME_T_MAX. */
  function RelDeadline(now: Timespec, us: nat, timeMax: nat): Timespec {
    var s := us / 1_000_000;
    var sec := if s >= timeMax || now.sec > timeMax - s then timeMax else now.sec + s;
    var nsec := now.nsec + us % 1_000_000 * 1000;
    if nsec >= SECOND then Timespec(if sec < timeMax then sec + 1 else sec, nsec - SECOND) else Timespec(sec, nsec)
  }

  function AbsDeadline(us: nat, timeMax: nat): Timespec {
    Timespec(if us / 1_000_000 >= timeMax then timeMax else us / 1_000_000, us % 1_000_000 * 1000)
  }

  /** A relative deadline is normalised, and it is now plus the given time unless that exceeds the range of
      time_t, in which case its seconds saturate. */
  lemma RelDeadlineIsNormalisedSum(now: Timespec, us: nat, timeMax: nat)
    requires Normalised(now) && now.sec <= timeMax
    ensures var r := RelDeadline(now, us, timeMax);
            var exact := Ns(now) + us * 1000;
            && Normalised(r) && r.sec <= timeMax
            && (if exact / SECOND <= timeMax then Ns(r) == exact else r.sec == timeMax)
  {
    var s, rest := us / 1_000_000, us % 1_000_000;
    var nsec := now.nsec + rest * 1000;
    assert us * 1000 == s * SECOND + rest * 1000;
    var exact := (now.sec + s) * SECOND + nsec;
    if nsec >= SECOND {
      assert exact == (now.sec + s + 1) * SECOND + (nsec - SECOND);
      assert exact / SECOND == now.sec + s + 1;
    } else {
      assert exact / SECOND == now.sec + s;
    }
  }

  /** An absolute deadline is normalised, and it is the given time unless that exceeds the range of time_t. */
  lemma AbsDeadlineIsNormalised(us: nat, timeMax: nat)
    ensures var r := AbsDeadline(us, timeMax);
            && Normalised(r) && r.sec <= timeMax
            && (if us / 1_000_000 <= timeMax then Ns(r) == us * 1000 else r.sec == timeMax)
  {
    assert us == us / 1_000_000 * 1_000_000 + us % 1_000_000;
  }

  /** A relative deadline within the cap, scanned at the instant at which it was set, is slept for exactly as
      long as was asked. */
  lemma RelDeadlineIsSleptExactly(now: Timespec, us: nat, active: bool, flags: EventFlags)
    requires Normalised(now) && Ns(now) + us * 1000 <= Ns(MAX_TS)
    ensures var d := Deadline(true, RelDeadline(now, us, INT64_MAX), active, flags);
            ScanFds(now, ScanStart(-1), [[d]]) == Scan(us * 1000, true)
  {
    var d := Deadline(true, RelDeadline(now, us, INT64_MAX), active, flags);
    RelDeadlineIsNormalisedSum(now, us, INT64_MAX);
    assert (Ns(now) + us * 1000) / SECOND <= Ns(MAX_TS) / SECOND;
    assert [[d]][..0] == [] && [d][..0] == [];
    assert ScanCallbacks(now, ScanStart(-1), [d]) == ScanOne(now, ScanStart(-1), d);
    assert ScanFds(now, ScanStart(-1), []) == ScanStart(-1);
    OneCallbackTakesMinimum(now, ScanStart(-1), d);
  }

  // ------------------------------------------------------------------------------- firing deadlines

  /** The firing loop looks at the timestamp only, not at timeout_enabled. */
  predicate Passed(now: Timespec, d: Deadline) {
    (d.ts.sec > 0 || d.ts.nsec > 0) && Compare(d.ts, now) < 0
  }

  /** A timestamp is passed if and only if it is set and earlier than now. */
  lemma PassedIsPast(now: Timespec, d: Deadline)
    requires Normalised(now) && Normalised(d.ts)
    ensures Passed(now, d) <==> 0 < Ns(d.ts) < Ns(now)
  {
    CompareIsOrder(d.ts, now);
  }

  /** The test at the head of crtx_evloop_callback(), with a timeout as the triggered flag. */
  predicate AsksForTimeouts(flags: EventFlags) {
    flags == {} || Interest.Timeout in flags
  }

  /** The turn of the callback runs its handler. */
  predicate Fires(now: Timespec, d: Deadline) {
    Passed(now, d) && d.active && AsksForTimeouts(d.flags)
  }

  /** struct crtx_evloop_callback, as far as deadlines are concerned. */
  class EvloopCallback {
    var timeoutEnabled: bool
    var timeout: Timespec
    var active: bool
    var flags: EventFlags

    constructor (active: bool, flags: EventFlags)
      ensures Value() == Deadline(false, Timespec(0, 0), active, flags)
    {
      this.timeoutEnabled, this.timeout, this.active, this.flags := false, Timespec(0, 0), active, flags;
    }

    function Value(): Deadline
      reads this
    {
      Deadline(timeoutEnabled, timeout, active, flags)
    }

    method SetTimeoutRel(us: nat, now: Timespec, timeMax: nat)
      requires Normalised(now) && now.sec <= timeMax
      modifies this
      ensures Value() == Deadline(true, RelDeadline(now, us, timeMax), old(active), old(flags))
    {
      timeout := now;
      timeoutEnabled := true;
      if us / 1_000_000 >= timeMax {
        timeout := timeout.(sec := timeMax);
      } else if timeout.sec > timeMax - us / 1_000_000 {
        timeout := timeout.(sec := timeMax);
      } else {
        timeout := timeout.(sec := timeout.sec + us / 1_000_000);
      }
      timeout := timeout.(nsec := timeout.nsec + us % 1_000_000 * 1000);
      if timeout.nsec >= SECOND {
        timeout := timeout.(nsec := timeout.nsec - SECOND);
        if timeout.sec < timeMax {
          timeout := timeout.(sec := timeout.sec + 1);
        }
      }
    }

    /** A deadline of another clock is turned into a relative one; clockUs is what that clock shows. */
    method SetTimeoutAbs(us: nat, defaultClock: bool, clockUs: nat, now: Timespec, timeMax: nat)
      requires Normalised(now) && now.sec <= timeMax
      modifies this
      ensures Value() ==
              Deadline(true,
                       if defaultClock then AbsDeadline(us, timeMax)
                       else RelDeadline(now, if clockUs < us then us - clockUs else 0, timeMax),
                       old(active), old(flags))
    {
      if !defaultClock {
        if clockUs < us {
          SetTimeoutRel(us - clockUs, now, timeMax);
        } else {
          SetTimeoutRel(0, now, timeMax);
        }
        return;
      }
      timeoutEnabled := true;
      timeout := Timespec(if us / 1_000_000 >= timeMax then timeMax else us / 1_000_000, us % 1_000_000 * 1000);
    }

    method DisableTimeout()
      modifies this
      ensures Value() == old(Value()).(enabled := false)
    {
      timeoutEnabled := false;
    }
  }

  /** What a handler does: it may set the deadline of its callback again or change its other fields, and it may
      close the loop after a fork. */
  datatype Reaction = Reaction(again: Option<Deadline>, closes: bool)

  /** The callbacks of all descriptors in list order. */
  ghost function Flatten(fds: seq<seq<EvloopCallback>>): seq<EvloopCallback> {
    if fds == [] then [] else Flatten(fds[..|fds| - 1]) + fds[|fds| - 1]
  }

  lemma {:induction false} FlattenAt(fds: seq<seq<EvloopCallback>>, i: nat)
    requires i < |fds|
    ensures var start := |Flatten(fds[..i])|;
            && start + |fds[i]| == |Flatten(fds[..i + 1])| <= |Flatten(fds)|
            && forall j {:trigger fds[i][j]} :: 0 <= j < |fds[i]| ==> Flatten(fds)[start + j] == fds[i][j]
    decreases |fds|
  {
    assert fds[..i + 1][..i] == fds[..i];
    if i == |fds| - 1 {
      assert fds[..i + 1] == fds;
    } else {
      var init := fds[..|fds| - 1];
      assert init[..i] == fds[..i] && init[..i + 1] == fds[..i + 1];
      FlattenAt(init, i);
    }
  }

  /** A callback after its turn. */
  function AfterTurn(now: Timespec, d: Deadline, r: Reaction): Deadline {
    if !Passed(now, d) then d
    else if Fires(now, d) && r.again.Some? then r.again.value
    else Deadline(false, Timespec(0, 0), d.active, d.flags)
  }

  /** The callback that fired last closed the loop. */
  predicate Closed(fired: seq<nat>, handler: nat -> Reaction) {
    fired != [] && handler(fired[|fired| - 1]).closes
  }

  /** Callback k had its turn. */
  predicate Reached(fired: seq<nat>, handler: nat -> Reaction, k: nat) {
    Closed(fired, handler) ==> k <= fired[|fired| - 1]
  }

  ghost predicate Ascending(fired: seq<nat>, bound: nat) {
    && (forall i :: 0 <= i < |fired| ==> fired[i] < bound)
    && (forall i, j :: 0 <= i < j < |fired| ==> fired[i] < fired[j])
  }

  /** The turn of one callback, whose handler reacts with r. */
  method TakeTurn(cb: EvloopCallback, now: Timespec, r: Reaction) returns (fires: bool)
    modifies cb
    ensures cb.Value() == AfterTurn(now, old(cb.Value()), r)
    ensures fires == old(Fires(now, cb.Value()))
  {
    fires := false;
    if (cb.timeout.sec > 0 || cb.timeout.nsec > 0) && Compare(cb.timeout, now) < 0 {
      cb.timeoutEnabled := false;
      cb.timeout := Timespec(0, 0);
      if cb.active {
        fires := cb.flags == {} || Interest.Timeout in cb.flags;
        if fires && r.again.Some? {
          cb.timeoutEnabled, cb.timeout := r.again.value.enabled, r.again.value.ts;
          cb.active, cb.flags := r.again.value.active, r.again.value.flags;
        }
      }
    }
  }

  /** After k turns, fired lists the ones that fired; only the last of them may have closed the loop. */
  ghost predicate FiredSoFar(was: seq<Deadline>, now: Timespec, handler: nat -> Reaction, k: nat, fired: seq<nat>) {
    && k <= |was| && Ascending(fired, k)
    && (forall x :: 0 <= x < k ==> (x in fired <==> Fires(now, was[x])))
    && (forall t :: 0 <= t < |fired| - 1 ==> !handler(fired[t]).closes)
    && (Closed(fired, handler) ==> fired[|fired| - 1] == k - 1)
  }

  lemma OneMoreTurn(was: seq<Deadline>, now: Timespec, handler: nat -> Reaction, k: nat, fired: seq<nat>)
    requires FiredSoFar(was, now, handler, k, fired) && k < |was| && !Closed(fired, handler)
    ensures FiredSoFar(was, now, handler, k + 1, if Fires(now, was[k]) then fired + [k] else fired)
  {
    var after := if Fires(now, was[k]) then fired + [k] else fired;
    forall x | 0 <= x < k + 1 ensures x in after <==> Fires(now, was[x]) {
      if x == k { assert x !in fired; } else { assert x in after <==> x in fired; }
    }
  }

  /** The callbacks after k turns. */
  ghost predicate TurnsTaken(cbs: seq<EvloopCallback>, was: seq<Deadline>, now: Timespec, handler: nat -> Reaction,
      k: nat)
    reads cbs
  {
    && |was| == |cbs|
    && forall x {:trigger cbs[x]} :: 0 <= x < |cbs| ==>
         cbs[x].Value() == if x < k then AfterTurn(now, was[x], handler(x)) else was[x]
  }

  /** In a pass a handler runs if and only if its turn is reached, its timestamp has passed, it is active and it
      asks for timeouts. Whether the deadline is enabled plays no part. */
  lemma HandlerRunsIff(was: seq<Deadline>, now: Timespec, handler: nat -> Reaction, turns: nat, fired: seq<nat>, k: nat)
    requires FiredSoFar(was, now, handler, turns, fired) && (!Closed(fired, handler) ==> turns == |was|) && k < |was|
    ensures k in fired <==>
            && Reached(fired, handler, k)
            && Passed(now, was[k]) && was[k].active && AsksForTimeouts(was[k].flags)
  {
    if k >= turns { assert k !in fired; }
  }

  /** The turn of the callback is reached, and its deadline is set and earlier than now. */
  predicate Due(now: Timespec, d: Deadline, reached: bool) {
    reached && 0 < Ns(d.ts) < Ns(now)
  }

  /** What a pass does, in nanoseconds: exactly the handlers of the due callbacks run that are active and ask for
      timeouts. A due deadline is cleared, or is what its handler set; all others stay as they were. */
  ghost predicate FiredInTime(was: seq<Deadline>, after: seq<Deadline>, now: Timespec, handler: nat -> Reaction,
                              fired: seq<nat>)
  {
    && |after| == |was|
    && forall k {:trigger was[k]} :: 0 <= k < |was| && Normalised(was[k].ts) ==>
         TimelyTurn(was[k], after[k], now, handler(k), Reached(fired, handler, k), k in fired)
  }

  predicate TimelyTurn(d: Deadline, after: Deadline, now: Timespec, r: Reaction, reached: bool, fires: bool) {
    && (fires <==> Due(now, d, reached) && d.active && (d.flags == {} || Interest.Timeout in d.flags))
    && after == if !Due(now, d, reached) then d
                else if fires && r.again.Some? then r.again.value
                else d.(enabled := false, ts := Timespec(0, 0))
  }

  lemma FiredInNanoseconds(was: seq<Deadline>, after: seq<Deadline>, now: Timespec, handler: nat -> Reaction,
                           turns: nat, fired: seq<nat>)
    requires FiredSoFar(was, now, handler, turns, fired) && (!Closed(fired, handler) ==> turns == |was|)
    requires |after| == |was|
    requires forall x :: 0 <= x < |was| ==>
               after[x] == if x < turns then AfterTurn(now, was[x], handler(x)) else was[x]
    ensures Normalised(now) ==> FiredInTime(was, after, now, handler, fired)
  {
    if Normalised(now) {
      forall k {:trigger was[k]} | 0 <= k < |was| && Normalised(was[k].ts)
        ensures TimelyTurn(was[k], after[k], now, handler(k), Reached(fired, handler, k), k in fired)
      {
        HandlerRunsIff(was, now, handler, turns, fired, k);
        PassedIsPast(now, was[k]);
        assert k < turns <==> Reached(fired, handler, k);
      }
    }
  }

  /** Turn k belongs to cb. */
  method NextTurn(cb: EvloopCallback, now: Timespec, handler: nat -> Reaction, k: nat, fired: seq<nat>,
                  ghost cbs: seq<EvloopCallback>, ghost was: seq<Deadline>) returns (after: seq<nat>)
    requires NoDuplicates(cbs) && k < |cbs| && cb == cbs[k] && !Closed(fired, handler)
    requires FiredSoFar(was, now, handler, k, fired) && TurnsTaken(cbs, was, now, handler, k)
    modifies cb
    ensures FiredSoFar(was, now, handler, k + 1, after) && TurnsTaken(cbs, was, now, handler, k + 1)
  {
    Distinct(cbs, k);
    OneMoreTurn(was, now, handler, k, fired);
    assert cbs[k].Value() == was[k];
    var fires := TakeTurn(cb, now, handler(k));
    after := if fires then fired + [k] else fired;
  }

  /** The nested loops over the descriptors and their callbacks. Handlers run in list order, up to one that
      closes the loop, for exactly the active callbacks that ask for timeouts and whose timestamp has passed.
      Every passed timestamp is cleared unless the handler sets it again, and all other deadlines stay. */
  method FireTimeouts(fds: seq<seq<EvloopCallback>>, now: Timespec, handler: nat -> Reaction)
    returns (fired: seq<nat>, ghost turns: nat)
    requires NoDuplicates(Flatten(fds))
    modifies Flatten(fds)
    ensures FiredSoFar(old(Values(Flatten(fds))), now, handler, turns, fired)
    ensures TurnsTaken(Flatten(fds), old(Values(Flatten(fds))), now, handler, turns)
    ensures !Closed(fired, handler) ==> turns == |Flatten(fds)|
    ensures var was := old(Values(Flatten(fds)));
            forall k :: 0 <= k < |was| ==> (k in fired <==> Reached(fired, handler, k) && Fires(now, was[k]))
    ensures Normalised(now) ==> FiredInTime(old(Values(Flatten(fds))), Values(Flatten(fds)), now, handler, fired)
  {
    fired := [];
    ghost var cbs := Flatten(fds);
    ghost var was := Values(cbs);
    var k := 0;
    var i := 0;
    while i < |fds| && !Closed(fired, handler)
      invariant 0 <= i <= |fds| && (!Closed(fired, handler) ==> k == |Flatten(fds[..i])|)
      invariant FiredSoFar(was, now, handler, k, fired) && TurnsTaken(cbs, was, now, handler, k)
      decreases |fds| - i
    {
      FlattenAt(fds, i);
      var j := 0;
      while j < |fds[i]| && !Closed(fired, handler)
        invariant 0 <= j <= |fds[i]| && k == |Flatten(fds[..i])| + j
        invariant FiredSoFar(was, now, handler, k, fired) && TurnsTaken(cbs, was, now, handler, k)
        decreases |fds[i]| - j
      {
        fired := NextTurn(fds[i][j], now, handler, k, fired, cbs, was);
        k := k + 1;
        j := j + 1;
      }
      i := i + 1;
    }
    assert i == |fds| ==> fds[..i] == fds;
    turns := k;
    forall x | 0 <= x < |was| ensures x in fired <==> Reached(fired, handler, x) && Fires(now, was[x]) {
      HandlerRunsIff(was, now, handler, turns, fired, x);
    }
    FiredInNanoseconds(was, Values(cbs), now, handler, turns, fired);
  }

  ghost function Values(cbs: seq<EvloopCallback>): seq<Deadline>
    reads cbs
  {
    seq(|cbs|, i requires 0 <= i < |cbs| reads cbs => cbs[i].Value())
  }

  // ------------------------------------------------------------------------- slept for and delivered

  /** A turn of a callback in some pass: the time of the pass and what the handler does if it runs. */
  datatype Turn = Turn(now: Timespec, reaction: Reaction)

  /** In one of its turns the handler of the callback runs. */
  predicate Delivered(d: Deadline, turns: seq<Turn>)
    decreases |turns|
  {
    turns != [] && (Fires(turns[0].now, d) || Delivered(AfterTurn(turns[0].now, d, turns[0].reaction), turns[1..]))
  }

  function AfterTurns(d: Deadline, turns: seq<Turn>): Deadline
    decreases |turns|
  {
    if turns == [] then d else AfterTurns(AfterTurn(turns[0].now, d, turns[0].reaction), turns[1..])
  }

  /** One of the turns comes after the deadline. */
  ghost predicate ComesUp(d: Deadline, turns: seq<Turn>) {
    exists i :: 0 <= i < |turns| && Passed(turns[i].now, d)
  }

  lemma {:induction false} ClearedStaysCleared(d: Deadline, turns: seq<Turn>)
    requires d.ts == Timespec(0, 0)
    ensures !Delivered(d, turns) && AfterTurns(d, turns) == d
    decreases |turns|
  {
    if turns != [] { ClearedStaysCleared(d, turns[1..]); }
  }

  /** Over any number of passes: a deadline, enabled or not, is delivered if and only if one of its turns comes
      after it, its callback is active and asks for timeouts. If only the last two fail, it is cleared. */
  lemma {:induction false} DeliveredIff(d: Deadline, turns: seq<Turn>)
    ensures Delivered(d, turns) <==> ComesUp(d, turns) && d.active && AsksForTimeouts(d.flags)
    ensures ComesUp(d, turns) && !Delivered(d, turns) ==>
              AfterTurns(d, turns) == Deadline(false, Timespec(0, 0), d.active, d.flags)
    decreases |turns|
  {
    if turns != [] {
      var rest, next := turns[1..], AfterTurn(turns[0].now, d, turns[0].reaction);
      if Passed(turns[0].now, d) {
        assert ComesUp(d, turns);
        if !Fires(turns[0].now, d) { ClearedStaysCleared(next, rest); }
      } else {
        DeliveredIff(d, rest);
        LaterTurn(d, turns);
      }
    }
  }

  lemma LaterTurn(d: Deadline, turns: seq<Turn>)
    requires turns != [] && !Passed(turns[0].now, d)
    ensures ComesUp(d, turns) <==> ComesUp(d, turns[1..])
  {
    if ComesUp(d, turns) {
      var i :| 0 <= i < |turns| && Passed(turns[i].now, d);
      assert turns[1..][i - 1] == turns[i];
    }
    if ComesUp(d, turns[1..]) {
      var i :| 0 <= i < |turns[1..]| && Passed(turns[1..][i].now, d);
      assert turns[1..][i] == turns[i + 1];
    }
  }

  lemma EarliestIsSleptFor(now: Timespec, fds: seq<seq<Deadline>>, d: Deadline)
    requires Normalised(now) && IsEarliest(d, fds) && forall x :: Has(fds, x) ==> NotAboveCap(x)
    ensures ScanFds(now, ScanStart(-1), fds) == Scan(Delay(now, d), true)
  {
    ScanIsEarliestDeadline(now, fds);
    var x :| Has(fds, x) && ScanFds(now, ScanStart(-1), fds).timeout == Delay(now, x);
    assert Ns(d.ts) <= Ns(x.ts);
  }

  /** An enabled deadline is slept for whatever its callback is. Once a turn has come up after it, it has been
      cleared without ever being delivered if and only if the callback is inactive or does not ask for timeouts. */
  lemma EnabledDeadlineIsLostIff(now: Timespec, fds: seq<seq<Deadline>>, d: Deadline, turns: seq<Turn>)
    requires Normalised(now) && IsEarliest(d, fds) && (forall x :: Has(fds, x) ==> NotAboveCap(x))
    requires ComesUp(d, turns)
    ensures ScanFds(now, ScanStart(-1), fds) == Scan(Delay(now, d), true)
    ensures !Delivered(d, turns) <==> !d.active || !AsksForTimeouts(d.flags)
    ensures !Delivered(d, turns) ==> AfterTurns(d, turns).ts == Timespec(0, 0) && !AfterTurns(d, turns).enabled
  {
    EarliestIsSleptFor(now, fds, d);
    DeliveredIff(d, turns);
  }

  lemma {:induction false} DisabledIsNotSleptFor(now: Timespec, acc: Scan, cbs: seq<Deadline>, j: nat)
    requires j < |cbs| && !cbs[j].enabled
    ensures ScanCallbacks(now, acc, cbs) == ScanCallbacks(now, acc, Removed(cbs, j))
    decreases |cbs|
  {
    var n := |cbs| - 1;
    if j == n {
      assert Removed(cbs, j) == cbs[..n];
    } else {
      DisabledIsNotSleptFor(now, acc, cbs[..n], j);
      assert Removed(cbs, j)[..n - 1] == Removed(cbs[..n], j) && Removed(cbs, j)[n - 1] == cbs[n];
    }
  }

  /** A disabled deadline makes no difference to how long the loop sleeps, but it is delivered if and only if a
      turn comes up after it, its callback is active and asks for timeouts. */
  lemma DisabledDeadlineFiresIff(now: Timespec, acc: Scan, cbs: seq<Deadline>, j: nat, turns: seq<Turn>)
    requires j < |cbs| && !cbs[j].enabled
    ensures ScanCallbacks(now, acc, cbs) == ScanCallbacks(now, acc, Removed(cbs, j))
    ensures Delivered(cbs[j], turns) <==>
            ComesUp(cbs[j], turns) && cbs[j].active && AsksForTimeouts(cbs[j].flags)
  {
    DisabledIsNotSleptFor(now, acc, cbs, j);
    DeliveredIff(cbs[j], turns);
  }

  /** Such a deadline: set, disabled and passed. */
  method DisabledDeadlineStillFires(now: Timespec, us: nat, active: bool, flags: EventFlags) returns (fired: seq<nat>)
    requires Normalised(now) && 0 < us && us * 1000 < Ns(now) && now.sec <= INT64_MAX
    ensures 0 in fired <==> active && AsksForTimeouts(flags)
  {
    var cb := new EvloopCallback(active, flags);
    cb.SetTimeoutAbs(us, true, 0, now, INT64_MAX);
    cb.DisableTimeout();
    ghost var d := cb.Value();
    AbsDeadlineIsNormalised(us, INT64_MAX);
    CompareIsOrder(d.ts, now);
    assert Flatten([[cb]][..0]) == [] && Flatten([[cb]]) == [cb];
    ghost var turns;
    fired, turns := FireTimeouts([[cb]], now, _ => Reaction(None, false));
  }
}
