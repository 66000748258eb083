/** The per-user gate in front of every chat request: at most 3 requests in
    any 30-second span and at most 20 in any 86400-second span, decided from
    the user's window of recent access times. */
module RateLimiter {

  const BurstSpan: int := 30
  const BurstCount: nat := 3
  const DailySpan: int := 86400
  const DailyCount: nat := 20

  datatype Reason = BurstLimit | DailyLimit

  /** Allow carries the window to store; Deny carries the rule that refused. */
  datatype Decision = Allow(window: seq<int>) | Deny(reason: Reason)

  /** The burst rule refuses: the third most recent access is fewer than
      30 seconds before now. */
  predicate BurstExceeded(w: seq<int>, now: int)
  {
    |w| >= BurstCount && now - w[|w| - BurstCount] < BurstSpan
  }

  /** The daily rule refuses: the twentieth most recent access is fewer than
      86400 seconds before now. */
  predicate DailyExceeded(w: seq<int>, now: int)
  {
    |w| >= DailyCount && now - w[|w| - DailyCount] < DailySpan
  }

  /** The window after an allowed request: the oldest entry goes when the
      window already holds 20 or more, then now is appended. */
  function Slide(w: seq<int>, now: int): seq<int>
  {
    (if |w| >= DailyCount then w[1..] else w) + [now]
  }

  /** The limiter's decision, rule by rule: burst first, then daily, else
      allow. Only a window of at least 3 entries is ever refused, and an
      allowed window always ends in now. */
  function Evaluate(w: seq<int>, now: int): (d: Decision)
    ensures d.Deny? ==> |w| >= BurstCount
    ensures d.Allow? ==> |d.window| >= 1 && d.window[|d.window| - 1] == now
  {
    if BurstExceeded(w, now) then Deny(BurstLimit)
    else if DailyExceeded(w, now) then Deny(DailyLimit)
    else Allow(Slide(w, now))
  }

  /** The limiter as the request handler runs it: on a working copy of the
      stored window, with the daily check nested under the burst check and the
      oldest entry deleted before the append. The handler's call to sort the
      window discards its result, so nothing is sorted here. */
  method Admit(window: seq<int>, now: int) returns (d: Decision)
    ensures d == Evaluate(window, now)
  {
    var l := window;
    if |l| >= 3 {
      if now - l[|l| - 3] < 30 {
        return Deny(BurstLimit);
      }
      if |l| >= 20 {
        if now - l[|l| - 20] < 86400 {
          return Deny(DailyLimit);
        }
        l := l[1..];
      }
    }
    l := l + [now];
    return Allow(l);
  }

  /** Boundary cases: 30 seconds after the third most recent access passes,
      29 seconds is refused; a full window is shifted by one. */
  lemma Scenarios()
    ensures Evaluate([], 1000) == Allow([1000])
    ensures var w := seq(20, i => i); Evaluate(w, 86400) == Allow(w[1..] + [86400])
    ensures Evaluate([100, 110, 120], 130) == Allow([100, 110, 120, 130])
    ensures Evaluate([100, 110, 125], 130).Allow?
    ensures Evaluate([100, 110, 125], 129) == Deny(BurstLimit)
  {
  }

  ghost predicate Ascending(w: seq<int>)
  {
    forall i, j :: 0 <= i < j < |w| ==> w[i] <= w[j]
  }

  /** A window of fewer than 3 entries is never refused by the burst rule;
      from 3 entries on it is refused exactly when the third most recent entry
      is fewer than 30 seconds old, so exactly 30 seconds passes. */
  lemma BurstRule(w: seq<int>, now: int)
    ensures |w| < 3 ==> Evaluate(w, now) != Deny(BurstLimit)
    ensures |w| >= 3 ==> (Evaluate(w, now) == Deny(BurstLimit) <==> now - w[|w| - 3] < 30)
    ensures |w| >= 3 && now == w[|w| - 3] + 30 ==> Evaluate(w, now) != Deny(BurstLimit)
  {
  }

  /** Once the burst rule passes, a window of fewer than 20 entries is
      allowed; from 20 entries on the request is refused exactly when the
      twentieth most recent entry is fewer than 86400 seconds old. */
  lemma DailyRule(w: seq<int>, now: int)
    requires !BurstExceeded(w, now)
    ensures |w| < 20 ==> Evaluate(w, now).Allow?
    ensures |w| >= 20 ==> (Evaluate(w, now) == Deny(DailyLimit) <==> now - w[|w| - 20] < 86400)
    ensures |w| >= 20 && now == w[|w| - 20] + 86400 ==> Evaluate(w, now).Allow?
  {
  }

  /** An allowed window ends in now, keeps the most recent entries of the old
      one (all of them below 20, all but the oldest from 20 on), and never
      grows past 20 when it started at 20 or fewer. */
  lemma AllowedWindow(w: seq<int>, now: int)
    requires Evaluate(w, now).Allow?
    ensures var w' := Evaluate(w, now).window;
      && |w'| >= 1 && w'[|w'| - 1] == now
      && (|w| < 20 ==> w' == w + [now])
      && (|w| >= 20 ==> w' == w[1..] + [now] && |w'| == |w|)
      && (|w| <= 20 ==> |w'| <= 20)
  {
  }

  /** Only the head is removed and only now is appended, so an ascending
      window stays ascending when now is not earlier than its last entry. */
  lemma {:induction false} AllowKeepsAscending(w: seq<int>, now: int)
    requires Ascending(w)
    requires |w| > 0 ==> w[|w| - 1] <= now
    requires Evaluate(w, now).Allow?
    ensures Ascending(Evaluate(w, now).window)
  {
    var w' := Evaluate(w, now).window;
    var base := if |w| >= 20 then w[1..] else w;
    assert w' == base + [now];
    forall i, j | 0 <= i < j < |w'|
      ensures w'[i] <= w'[j]
    {
      var off := if |w| >= 20 then 1 else 0;
      if j < |base| {
        assert w'[i] == w[i + off] && w'[j] == w[j + off];
      } else {
        assert w'[i] == w[i + off];
        assert w[i + off] <= w[|w| - 1];
      }
    }
  }

  /** Every accepted request history keeps the promised quotas: any four
      consecutive accepted requests span at least 30 seconds, and any
      twenty-one span at least 86400 seconds. */
  ghost predicate WithinQuota(h: seq<int>)
  {
    && (forall i :: 0 <= i && i + 3 < |h| ==> h[i + 3] - h[i] >= 30)
    && (forall i :: 0 <= i && i + 20 < |h| ==> h[i + 20] - h[i] >= 86400)
  }

  /** The window holds exactly the most recent min(|h|, 20) accepted times. */
  ghost predicate Tracks(w: seq<int>, h: seq<int>)
  {
    var k := if |h| < 20 then |h| else 20;
    w == h[|h| - k..]
  }

  /** The limiter enforces its quotas on the whole accepted history, not
      just on the window: when the window tracks the accepted history and
      that history is within quota, an allowed request keeps both. */
  lemma AllowKeepsQuota(w: seq<int>, h: seq<int>, now: int)
    requires Tracks(w, h) && WithinQuota(h)
    requires Evaluate(w, now).Allow?
    ensures Tracks(Evaluate(w, now).window, h + [now])
    ensures WithinQuota(h + [now])
  {
    AllowKeepsBurstQuota(w, h, now);
    AllowKeepsDailyQuota(w, h, now);
    AllowKeepsTracking(w, h, now);
  }

  lemma AllowKeepsBurstQuota(w: seq<int>, h: seq<int>, now: int)
    requires Tracks(w, h) && WithinQuota(h)
    requires !BurstExceeded(w, now)
    ensures forall i :: 0 <= i && i + 3 < |h + [now]| ==> (h + [now])[i + 3] - (h + [now])[i] >= 30
  {
    var h' := h + [now];
    forall i | 0 <= i && i + 3 < |h'|
      ensures h'[i + 3] - h'[i] >= 30
    {
      if i + 3 == |h| {
        assert h'[i] == w[|w| - 3];
      } else {
        assert h'[i + 3] == h[i + 3] && h'[i] == h[i];
      }
    }
  }

  lemma AllowKeepsDailyQuota(w: seq<int>, h: seq<int>, now: int)
    requires Tracks(w, h) && WithinQuota(h)
    requires !DailyExceeded(w, now)
    ensures forall i :: 0 <= i && i + 20 < |h + [now]| ==> (h + [now])[i + 20] - (h + [now])[i] >= 86400
  {
    var h' := h + [now];
    forall i | 0 <= i && i + 20 < |h'|
      ensures h'[i + 20] - h'[i] >= 86400
    {
      if i + 20 == |h| {
        assert h'[i] == w[|w| - 20];
      } else {
        assert h'[i + 20] == h[i + 20] && h'[i] == h[i];
      }
    }
  }

  lemma AllowKeepsTracking(w: seq<int>, h: seq<int>, now: int)
    requires Tracks(w, h)
    ensures Tracks(Slide(w, now), h + [now])
  {
    var n := |h|;
    var h' := h + [now];
    if n < 20 {
      assert h'[|h'| - (n + 1)..] == h' == h[0..] + [now];
    } else {
      assert h'[|h'| - 20..] == h[n - 19..] + [now];
      assert h[n - 19..] == h[n - 20..][1..];
    }
  }

  /** Replays a run of request times against a window that starts empty:
      the final window and the times the limiter allowed, in order. */
  function Replay(nows: seq<int>): (r: (seq<int>, seq<int>))
  {
    if nows == [] then ([], [])
    else
      var (w, h) := Replay(nows[..|nows| - 1]);
      var now := nows[|nows| - 1];
      match Evaluate(w, now)
      case Allow(w') => (w', h + [now])
      case Deny(_) => (w, h)
  }

  /** However the requests arrive, the allowed ones keep both quotas and the
      window tracks the most recent 20 of them. */
  lemma {:induction false} ReplayWithinQuota(nows: seq<int>)
    ensures Tracks(Replay(nows).0, Replay(nows).1)
    ensures WithinQuota(Replay(nows).1)
  {
    if nows != [] {
      ReplayWithinQuota(nows[..|nows| - 1]);
      var (w, h) := Replay(nows[..|nows| - 1]);
      var now := nows[|nows| - 1];
      if Evaluate(w, now).Allow? {
        AllowKeepsQuota(w, h, now);
      }
    }
  }
}
