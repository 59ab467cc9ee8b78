/**
 * The bridge's two-window decrypt limiter (Policy L3): a pruned minute list and
 * a pruned day list, against a reference limiter that forgets nothing.
 * Instants are nanoseconds on a monotonic clock.
 */
module RateLimit {
  import opened Common

  type Time = nat

  const MINUTE: Time := 60_000_000_000
  const DAY: Time := 86_400_000_000_000

  /** The time since an instant, which saturates at zero. */
  function Since(now: Time, t: Time): Time {
    if t <= now then now - t else 0
  }

  /** The instants that lie less than a window back, in their order. */
  function Within(h: seq<Time>, now: Time, window: Time): (r: seq<Time>)
    ensures |r| <= |h|
  {
    if h == [] then [] else
      var rest := Within(h[..|h| - 1], now, window);
      if Since(now, h[|h| - 1]) < window then rest + [h[|h| - 1]] else rest
  }

  /** A length cast to 32 bits, which truncates. */
  function AsU32(n: nat): u32 {
    if n < 0x1_0000_0000 then n else n % 0x1_0000_0000
  }

  datatype Buckets = Buckets(perMin: seq<Time>, perDay: seq<Time>)

  datatype Reply =
    | Accepted(perMinUsed: u32, perDayUsed: u32)
    | MinuteBreach(used: u32, max: u32)
    | DayBreach(used: u32, max: u32)
    | Snapshot(perMinUsed: u32, perDayUsed: u32)

  datatype Call = Check(now: Time) | Peek(now: Time)

  datatype Caps = Caps(perMin: u32, perDay: u32)

  function Pruned(b: Buckets, now: Time): Buckets {
    Buckets(Within(b.perMin, now, MINUTE), Within(b.perDay, now, DAY))
  }

  /** `check_and_record` and `snapshot`. */
  function Step(b: Buckets, call: Call, caps: Caps): (Buckets, Reply) {
    var p := Pruned(b, call.now);
    if call.Peek? then (p, Snapshot(AsU32(|p.perMin|), AsU32(|p.perDay|)))
    else if AsU32(|p.perMin|) >= caps.perMin then (p, MinuteBreach(AsU32(|p.perMin|), caps.perMin))
    else if AsU32(|p.perDay|) >= caps.perDay then (p, DayBreach(AsU32(|p.perDay|), caps.perDay))
    else
      var q := Buckets(p.perMin + [call.now], p.perDay + [call.now]);
      (q, Accepted(AsU32(|q.perMin|), AsU32(|q.perDay|)))
  }

  // ------------------------------------------------------------------
  // The reference: every accepted decrypt is remembered for ever
  // ------------------------------------------------------------------

  function RefReply(h: seq<Time>, call: Call, caps: Caps): Reply {
    var m, d := |Within(h, call.now, MINUTE)|, |Within(h, call.now, DAY)|;
    if call.Peek? then Snapshot(AsU32(m), AsU32(d))
    else if m >= caps.perMin then MinuteBreach(AsU32(m), caps.perMin)
    else if d >= caps.perDay then DayBreach(AsU32(d), caps.perDay)
    else Accepted(AsU32(m + 1), AsU32(d + 1))
  }

  function RefHistory(h: seq<Time>, call: Call, caps: Caps): seq<Time> {
    if RefReply(h, call, caps).Accepted? then h + [call.now] else h
  }

  ghost predicate Sorted(h: seq<Time>, last: Time) {
    (forall i, j :: 0 <= i < j < |h| ==> h[i] <= h[j]) && forall i :: 0 <= i < |h| ==> h[i] <= last
  }

  /** Each acceptance found both windows below their caps. */
  ghost predicate Capped(h: seq<Time>, caps: Caps) {
    h == [] ||
    var earlier, t := h[..|h| - 1], h[|h| - 1];
    Capped(earlier, caps) && |Within(earlier, t, MINUTE)| < caps.perMin && |Within(earlier, t, DAY)| < caps.perDay
  }

  /** The buckets hold exactly the recent part of the full history. */
  ghost predicate Represents(b: Buckets, h: seq<Time>, last: Time, caps: Caps) {
    Sorted(h, last) && Capped(h, caps) && b == Buckets(Within(h, last, MINUTE), Within(h, last, DAY))
  }

  lemma {:induction false} WithinWithin(h: seq<Time>, last: Time, now: Time, window: Time)
    requires last <= now && forall i :: 0 <= i < |h| ==> h[i] <= last
    ensures Within(Within(h, last, window), now, window) == Within(h, now, window)
  {
    if h != [] {
      var init, rest := h[..|h| - 1], Within(h[..|h| - 1], last, window);
      WithinWithin(init, last, now, window);
      assert (rest + [h[|h| - 1]])[..|rest|] == rest;
    }
  }

  /** In a sorted history, what is within the window is a suffix. */
  lemma {:induction false} WithinIsSuffix(h: seq<Time>, now: Time, window: Time)
    requires window > 0 && Sorted(h, now)
    ensures var k := |h| - |Within(h, now, window)|;
            Within(h, now, window) == h[k..] && forall i :: 0 <= i < k ==> Since(now, h[i]) >= window
  {
    if h != [] {
      var init, last := h[..|h| - 1], h[|h| - 1];
      if Since(now, last) >= window {
        NothingWithin(h, now, window, last);
        forall i | 0 <= i < |h|
          ensures Since(now, h[i]) >= window
        {
          assert h[i] <= last;
        }
      } else {
        WithinIsSuffix(init, now, window);
        var k := |init| - |Within(init, now, window)|;
        assert h[k..] == init[k..] + [last];
        assert forall i :: 0 <= i < k ==> h[i] == init[i];
      }
    }
  }

  /** If the newest instant is out of the window, so are all. */
  lemma {:induction false} NothingWithin(h: seq<Time>, now: Time, window: Time, newest: Time)
    requires newest <= now && Since(now, newest) >= window && forall i :: 0 <= i < |h| ==> h[i] <= newest
    ensures Within(h, now, window) == []
  {
    if h != [] {
      NothingWithin(h[..|h| - 1], now, window, newest);
    }
  }

  lemma {:induction false} WithinAll(h: seq<Time>, now: Time, window: Time)
    ensures forall i :: 0 <= i < |Within(h, now, window)| ==> Since(now, Within(h, now, window)[i]) < window
  {
    if h != [] {
      WithinAll(h[..|h| - 1], now, window);
    }
  }

  /** The minute list is always a suffix of the day list. */
  lemma MinuteIsSuffixOfDay(b: Buckets, h: seq<Time>, last: Time, caps: Caps)
    requires Represents(b, h, last, caps)
    ensures |b.perMin| <= |b.perDay| && b.perMin == b.perDay[|b.perDay| - |b.perMin|..]
  {
    WithinIsSuffix(h, last, MINUTE);
    WithinIsSuffix(h, last, DAY);
    var km, kd := |h| - |b.perMin|, |h| - |b.perDay|;
    assert km < kd ==> Since(last, h[km]) >= DAY && h[km] == b.perMin[0];
    WithinAll(h, last, MINUTE);
  }

  /** A capped history never shows more than the cap in any past-looking window. */
  lemma WithinCapped(h: seq<Time>, now: Time, caps: Caps)
    requires Sorted(h, now) && Capped(h, caps)
    ensures |Within(h, now, MINUTE)| <= caps.perMin && |Within(h, now, DAY)| <= caps.perDay
  {
    if h != [] {
      var n := |h| - 1;
      LaterSeesFewer(h[..n], h[n], now, MINUTE);
      LaterSeesFewer(h[..n], h[n], now, DAY);
    }
  }

  lemma {:induction false} LaterSeesFewer(h: seq<Time>, t1: Time, t2: Time, window: Time)
    requires t1 <= t2 && forall i :: 0 <= i < |h| ==> h[i] <= t1
    ensures |Within(h, t2, window)| <= |Within(h, t1, window)|
  {
    if h != [] {
      LaterSeesFewer(h[..|h| - 1], t1, t2, window);
    }
  }

  /** One call: the pruned limiter answers as the reference does and keeps representing its history. */
  lemma StepAgrees(b: Buckets, h: seq<Time>, last: Time, call: Call, caps: Caps)
    requires Represents(b, h, last, caps) && last <= call.now
    ensures Step(b, call, caps).1 == RefReply(h, call, caps)
    ensures Represents(Step(b, call, caps).0, RefHistory(h, call, caps), call.now, caps)
  {
    var now := call.now;
    PruneKeeps(b, h, last, now, caps);
    if RefReply(h, call, caps).Accepted? {
      Record(h, now, caps);
    }
  }

  lemma PruneKeeps(b: Buckets, h: seq<Time>, last: Time, now: Time, caps: Caps)
    requires Represents(b, h, last, caps) && last <= now
    ensures Represents(Pruned(b, now), h, now, caps)
    ensures |Pruned(b, now).perMin| <= caps.perMin && |Pruned(b, now).perDay| <= caps.perDay
  {
    WithinWithin(h, last, now, MINUTE);
    WithinWithin(h, last, now, DAY);
    WithinCapped(h, now, caps);
  }

  lemma WithinSnoc(h: seq<Time>, now: Time, window: Time)
    requires window > 0
    ensures Within(h + [now], now, window) == Within(h, now, window) + [now]
  {
    assert (h + [now])[..|h|] == h;
  }

  lemma SortedSnoc(h: seq<Time>, now: Time)
    requires Sorted(h, now)
    ensures Sorted(h + [now], now)
  {
  }

  lemma CappedSnoc(h: seq<Time>, now: Time, caps: Caps)
    requires Capped(h, caps) && |Within(h, now, MINUTE)| < caps.perMin && |Within(h, now, DAY)| < caps.perDay
    ensures Capped(h + [now], caps)
  {
    assert (h + [now])[..|h|] == h;
  }

  lemma Record(h: seq<Time>, now: Time, caps: Caps)
    requires Sorted(h, now) && Capped(h, caps)
    requires |Within(h, now, MINUTE)| < caps.perMin && |Within(h, now, DAY)| < caps.perDay
    ensures Represents(Buckets(Within(h, now, MINUTE) + [now], Within(h, now, DAY) + [now]), h + [now], now, caps)
  {
    WithinSnoc(h, now, MINUTE);
    WithinSnoc(h, now, DAY);
    SortedSnoc(h, now);
    CappedSnoc(h, now, caps);
  }

  // ------------------------------------------------------------------
  // Whole runs
  // ------------------------------------------------------------------

  ghost predicate Monotone(last: Time, calls: seq<Call>)
    decreases |calls|
  {
    calls == [] || (last <= calls[0].now && Monotone(calls[0].now, calls[1..]))
  }

  function Run(b: Buckets, calls: seq<Call>, caps: Caps): seq<Reply>
    decreases |calls|
  {
    if calls == [] then [] else
      var (b', r) := Step(b, calls[0], caps);
      [r] + Run(b', calls[1..], caps)
  }

  function RefRun(h: seq<Time>, calls: seq<Call>, caps: Caps): seq<Reply>
    decreases |calls|
  {
    if calls == [] then [] else
      [RefReply(h, calls[0], caps)] + RefRun(RefHistory(h, calls[0], caps), calls[1..], caps)
  }

  function RefFinal(h: seq<Time>, calls: seq<Call>, caps: Caps): seq<Time>
    decreases |calls|
  {
    if calls == [] then h else RefFinal(RefHistory(h, calls[0], caps), calls[1..], caps)
  }

  /** Over every run with a non-decreasing clock the two limiters give the same replies. */
  lemma {:induction false} RunsAgree(b: Buckets, h: seq<Time>, last: Time, calls: seq<Call>, caps: Caps)
    requires Represents(b, h, last, caps) && Monotone(last, calls)
    ensures Run(b, calls, caps) == RefRun(h, calls, caps)
    decreases |calls|
  {
    if calls != [] {
      StepAgrees(b, h, last, calls[0], caps);
      RunsAgree(Step(b, calls[0], caps).0, RefHistory(h, calls[0], caps), calls[0].now, calls[1..], caps);
    }
  }

  lemma FreshRunsAgree(calls: seq<Call>, caps: Caps)
    requires Monotone(0, calls)
    ensures Run(Buckets([], []), calls, caps) == RefRun([], calls, caps)
  {
    RunsAgree(Buckets([], []), [], 0, calls, caps);
  }

  /** A call that was not accepted changes no later reply. */
  lemma RefusalsAreInvisible(b: Buckets, h: seq<Time>, last: Time, call: Call, later: seq<Call>, caps: Caps)
    requires Represents(b, h, last, caps) && Monotone(last, [call] + later)
    requires !Step(b, call, caps).1.Accepted?
    ensures Run(Step(b, call, caps).0, later, caps) == Run(b, later, caps)
  {
    StepAgrees(b, h, last, call, caps);
    assert ([call] + later)[1..] == later;
    RunsAgree(Step(b, call, caps).0, h, call.now, later, caps);
    RunsAgree(b, h, last, later, caps) by {
      assert later != [] ==> call.now <= later[0].now;
    }
  }

  // ------------------------------------------------------------------
  // What the caps mean
  // ------------------------------------------------------------------

  /** The acceptances in the half-open window [from, from + window). */
  function Window(h: seq<Time>, from: Time, window: Time): (r: seq<Time>)
    ensures |r| <= |h|
  {
    if h == [] then [] else
      var rest, t := Window(h[..|h| - 1], from, window), h[|h| - 1];
      if from <= t < from + window then rest + [t] else rest
  }

  lemma {:induction false} WindowInWithin(h: seq<Time>, from: Time, window: Time, now: Time)
    requires from <= now < from + window && forall i :: 0 <= i < |h| ==> h[i] <= now
    ensures |Window(h, from, window)| <= |Within(h, now, window)|
  {
    if h != [] {
      WindowInWithin(h[..|h| - 1], from, window, now);
    }
  }

  /** Every window of a minute, and of a day, wherever it starts, holds at most its cap. */
  lemma {:induction false} WindowBound(h: seq<Time>, last: Time, from: Time, caps: Caps)
    requires Sorted(h, last) && Capped(h, caps)
    ensures |Window(h, from, MINUTE)| <= caps.perMin
    ensures |Window(h, from, DAY)| <= caps.perDay
    decreases |h|
  {
    if h != [] {
      var n := |h| - 1;
      var init := h[..n];
      WindowBound(init, last, from, caps);
      if from <= h[n] < from + MINUTE { WindowInWithin(init, from, MINUTE, h[n]); }
      if from <= h[n] < from + DAY { WindowInWithin(init, from, DAY, h[n]); }
    }
  }

  /** Whatever the calls, the acceptances of a fresh limiter respect both caps in every window. */
  lemma {:induction false} RunRespectsCaps(h: seq<Time>, last: Time, calls: seq<Call>, caps: Caps, from: Time)
    requires Sorted(h, last) && Capped(h, caps) && Monotone(last, calls)
    ensures |Window(RefFinal(h, calls, caps), from, MINUTE)| <= caps.perMin
    ensures |Window(RefFinal(h, calls, caps), from, DAY)| <= caps.perDay
    decreases |calls|
  {
    if calls == [] {
      WindowBound(h, last, from, caps);
    } else {
      StepAgrees(Buckets(Within(h, last, MINUTE), Within(h, last, DAY)), h, last, calls[0], caps);
      RunRespectsCaps(RefHistory(h, calls[0], caps), calls[0].now, calls[1..], caps, from);
    }
  }

  // ------------------------------------------------------------------
  // What the reference accepts
  // ------------------------------------------------------------------

  /** The acceptances less than `window` nanoseconds before `now`. */
  ghost function Recent(h: seq<Time>, now: Time, window: Time): set<nat> {
    set i: nat | i < |h| && now < h[i] + window
  }

  lemma {:induction false} WithinCounts(h: seq<Time>, now: Time, window: Time)
    requires window > 0 && forall i :: 0 <= i < |h| ==> h[i] <= now
    ensures |Within(h, now, window)| == |Recent(h, now, window)|
  {
    if h == [] {
      assert Recent(h, now, window) == {};
    } else {
      var n := |h| - 1;
      var before := Recent(h[..n], now, window);
      WithinCounts(h[..n], now, window);
      assert n !in before;
      assert Recent(h, now, window) == if now < h[n] + window then before + {n} else before;
    }
  }

  /**
   * A call is accepted exactly when fewer than the cap were accepted in the last
   * minute and in the last day; the minute's cap is named first.
   */
  lemma AcceptsExactly(h: seq<Time>, now: Time, caps: Caps)
    requires forall i :: 0 <= i < |h| ==> h[i] <= now
    ensures var reply := RefReply(h, Check(now), caps);
            var minute, day := |Recent(h, now, 60_000_000_000)|, |Recent(h, now, 86_400_000_000_000)|;
            && (reply.Accepted? <==> minute < caps.perMin && day < caps.perDay)
            && (reply.MinuteBreach? <==> minute >= caps.perMin)
            && (reply.DayBreach? <==> minute < caps.perMin && day >= caps.perDay)
            && (reply.Accepted? ==> reply == Accepted((minute + 1) % 0x1_0000_0000, (day + 1) % 0x1_0000_0000))
    ensures RefHistory(h, Check(now), caps) == if RefReply(h, Check(now), caps).Accepted? then h + [now] else h
    ensures RefHistory(h, Peek(now), caps) == h
    ensures RefReply(h, Peek(now), caps) ==
            Snapshot(|Recent(h, now, 60_000_000_000)| % 0x1_0000_0000,
                     |Recent(h, now, 86_400_000_000_000)| % 0x1_0000_0000)
  {
    WithinCounts(h, now, MINUTE);
    WithinCounts(h, now, DAY);
  }

  // ------------------------------------------------------------------
  // The object
  // ------------------------------------------------------------------

  class RateBuckets {
    var perMin: seq<Time>
    var perDay: seq<Time>
    ghost var history: seq<Time>
    ghost var lastNow: Time
    ghost const caps: Caps

    ghost predicate Valid()
      reads this
    {
      Represents(Value(), history, lastNow, caps)
    }

    function Value(): Buckets
      reads this
    {
      Buckets(perMin, perDay)
    }

    constructor (ghost caps: Caps)
      ensures Valid() && Value() == Buckets([], []) && history == [] && lastNow == 0 && this.caps == caps
    {
      perMin, perDay := [], [];
      history, lastNow := [], 0;
      this.caps := caps;
    }

    method Prune(now: Time)
      requires Valid() && lastNow <= now
      modifies this
      ensures Valid() && lastNow == now && history == old(history)
      ensures Value() == Pruned(old(Value()), now)
    {
      StepAgrees(Value(), history, lastNow, Peek(now), caps);
      perMin := Within(perMin, now, MINUTE);
      perDay := Within(perDay, now, DAY);
      lastNow := now;
    }

    /** Answers as the limiter that remembers every acceptance, and records exactly the acceptances. */
    method CheckAndRecord(now: Time, perMinMax: u32, perDayMax: u32) returns (reply: Reply)
      requires Valid() && lastNow <= now && caps == Caps(perMinMax, perDayMax)
      modifies this
      ensures Valid() && lastNow == now
      ensures reply == RefReply(old(history), Check(now), caps)
      ensures history == RefHistory(old(history), Check(now), caps)
      ensures (Value(), reply) == Step(old(Value()), Check(now), caps)
    {
      ghost var h, b := history, Value();
      StepAgrees(b, h, lastNow, Check(now), caps);
      Prune(now);
      if AsU32(|perMin|) >= perMinMax {
        reply := MinuteBreach(AsU32(|perMin|), perMinMax);
      } else if AsU32(|perDay|) >= perDayMax {
        reply := DayBreach(AsU32(|perDay|), perDayMax);
      } else {
        perMin := perMin + [now];
        perDay := perDay + [now];
        reply := Accepted(AsU32(|perMin|), AsU32(|perDay|));
      }
      assert (Value(), reply) == Step(b, Check(now), caps);
      history := RefHistory(h, Check(now), caps);
    }

    method TakeSnapshot(now: Time) returns (reply: Reply)
      requires Valid() && lastNow <= now
      modifies this
      ensures Valid() && lastNow == now && history == old(history)
      ensures reply == RefReply(history, Peek(now), caps)
      ensures Value() == Pruned(old(Value()), now)
    {
      StepAgrees(Value(), history, lastNow, Peek(now), caps);
      Prune(now);
      return Snapshot(AsU32(|perMin|), AsU32(|perDay|));
    }
  }
}
