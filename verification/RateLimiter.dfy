/** The in-process sliding-window limiter; limit and window come with each call. Times are exact. */
module RateLimiter {
  import opened Maps
  import opened Numbers

  type Key = string

  /** One call: the clock it read, its limit and window, and its answer. */
  datatype Call = Call(now: int, limit: int, window: nat, allowed: bool) {
    function Cutoff(): int { now - window }
  }

  /** The times of the admitted calls of a history, oldest first. */
  function Admitted(h: seq<Call>): seq<int> {
    if h == [] then [] else Extended(Admitted(h[..|h| - 1]), h[|h| - 1])
  }

  function Extended(admitted: seq<int>, c: Call): seq<int> { if c.allowed then admitted + [c.now] else admitted }

  /** How many of the times lie in the closed interval. */
  function CountIn(s: seq<int>, from: int, to: int): nat {
    if s == [] then 0 else (if from <= s[0] <= to then 1 else 0) + CountIn(s[1..], from, to)
  }

  // ---------------------------------------------------------------- what is kept

  /** Hits are dropped from the front, up to the first one that is not too old. */
  function Trimmed(s: seq<int>, cutoff: int): (r: seq<int>)
    ensures r == [] || r[0] >= cutoff
  {
    if s != [] && s[0] < cutoff then Trimmed(s[1..], cutoff) else s
  }

  /** What is left is the end of the list, and everything in front of it was too old. */
  lemma {:induction false} TrimmedIsEnd(s: seq<int>, cutoff: int)
    ensures var r := Trimmed(s, cutoff);
            && |r| <= |s| && r == s[|s| - |r|..] && (r != [] ==> r[0] >= cutoff)
            && forall i :: 0 <= i < |s| - |r| ==> s[i] < cutoff
  {
    if s != [] && s[0] < cutoff {
      TrimmedIsEnd(s[1..], cutoff);
    }
  }

  /** The hits kept for a key after its history. */
  function Kept(h: seq<Call>): seq<int> {
    if h == [] then []
    else Extended(Trimmed(Kept(h[..|h| - 1]), h[|h| - 1].Cutoff()), h[|h| - 1])
  }

  /** The calls of one key in the order in which they held the lock.  A call reads the clock before it
      takes the lock, so the readings need not be in order. */
  predicate History(h: seq<Call>) {
    h == [] || (
      var front, last := h[..|h| - 1], h[|h| - 1];
      History(front) && (last.allowed <==> |Trimmed(Kept(front), last.Cutoff())| < last.limit))
  }

  /** No reading lies more than `skew` before that of an earlier call. */
  predicate Skewed(h: seq<Call>, skew: nat) {
    forall i, j :: 0 <= i < j < |h| ==> h[j].now >= h[i].now - skew
  }

  /** All calls have this limit and window. */
  predicate Fixed(h: seq<Call>, limit: int, window: nat) {
    forall i :: 0 <= i < |h| ==> h[i].limit == limit && h[i].window == window
  }

  // ---------------------------------------------------------------- counting

  lemma {:induction false} CountNext(s: seq<int>, now: int, from: int, to: int)
    ensures CountIn(s + [now], from, to) == CountIn(s, from, to) + if from <= now <= to then 1 else 0
  {
    if s == [] {
      assert s + [now] == [now];
    } else {
      assert (s + [now])[1..] == s[1..] + [now];
      CountNext(s[1..], now, from, to);
    }
  }

  lemma {:induction false} CountAtMost(s: seq<int>, from: int, to: int)
    ensures CountIn(s, from, to) <= |s|
  {
    if s != [] {
      CountAtMost(s[1..], from, to);
    }
  }

  lemma {:induction false} CountAll(s: seq<int>, from: int, to: int)
    requires forall i :: 0 <= i < |s| ==> from <= s[i] <= to
    ensures CountIn(s, from, to) == |s|
  {
    if s != [] {
      CountAll(s[1..], from, to);
    }
  }

  /** Trimming loses no hit of an interval that begins at the cutoff or later. */
  lemma {:induction false} CountTrimmed(s: seq<int>, cutoff: int, from: int, to: int)
    ensures CountIn(Trimmed(s, cutoff), from, to) <= CountIn(s, from, to)
    ensures cutoff <= from ==> CountIn(Trimmed(s, cutoff), from, to) == CountIn(s, from, to)
  {
    if s != [] && s[0] < cutoff {
      CountTrimmed(s[1..], cutoff, from, to);
    }
  }

  /** What is kept of an interval is what was admitted in it, if every window began before it. */
  lemma {:induction false} CountKept(h: seq<Call>, from: int, to: int)
    ensures CountIn(Kept(h), from, to) <= CountIn(Admitted(h), from, to)
    ensures (forall i :: 0 <= i < |h| ==> h[i].Cutoff() <= from) ==>
              CountIn(Kept(h), from, to) == CountIn(Admitted(h), from, to)
  {
    if h != [] {
      var front, last := h[..|h| - 1], h[|h| - 1];
      CountKept(front, from, to);
      CountTrimmed(Kept(front), last.Cutoff(), from, to);
      CountNext(Trimmed(Kept(front), last.Cutoff()), last.now, from, to);
      CountNext(Admitted(front), last.now, from, to);
    }
  }

  /** The admitted calls of a history whose clock readings lie in the closed interval, by their positions. */
  ghost function AdmittedIn(h: seq<Call>, from: int, to: int): set<nat> {
    set i: nat | i < |h| && h[i].allowed && from <= h[i].now <= to
  }

  /** What is counted: those calls. */
  lemma {:induction false} CountIsOfCalls(h: seq<Call>, from: int, to: int)
    ensures CountIn(Admitted(h), from, to) == |AdmittedIn(h, from, to)|
  {
    if h != [] {
      var n, last := |h| - 1, h[|h| - 1];
      CountIsOfCalls(h[..n], from, to);
      CountNext(Admitted(h[..n]), last.now, from, to);
      var front := AdmittedIn(h[..n], from, to);
      if last.allowed && from <= last.now <= to {
        assert AdmittedIn(h, from, to) == front + {n};
      } else {
        assert AdmittedIn(h, from, to) == front;
      }
    }
  }

  ghost predicate IsEnd(r: seq<int>, s: seq<int>) { |r| <= |s| && r == s[|s| - |r|..] }

  lemma EndOfEnd(s: seq<int>, t: seq<int>, r: seq<int>)
    requires IsEnd(t, s) && IsEnd(r, t)
    ensures IsEnd(r, s)
  {
  }

  lemma ExtendedEnd(s: seq<int>, r: seq<int>, c: Call)
    requires IsEnd(r, s)
    ensures IsEnd(Extended(r, c), Extended(s, c))
  {
  }

  /** What is kept are the latest of the admitted calls. */
  lemma {:induction false} KeptIsEnd(h: seq<Call>)
    ensures IsEnd(Kept(h), Admitted(h))
  {
    if h != [] {
      var front, last := h[..|h| - 1], h[|h| - 1];
      var trimmed := Trimmed(Kept(front), last.Cutoff());
      KeptIsEnd(front);
      TrimmedIsEnd(Kept(front), last.Cutoff());
      EndOfEnd(Admitted(front), Kept(front), trimmed);
      ExtendedEnd(Admitted(front), trimmed, last);
    }
  }

  // ---------------------------------------------------------------- one limit and one window

  /** With one limit and one window, and readings that go back by at most `skew`, no closed interval that
      is shorter than the window by `skew` holds more than `limit` admitted calls.  With readings in
      order that is any interval as long as the window. */
  lemma {:induction false} NeverMoreThanLimit(h: seq<Call>, limit: nat, window: nat, skew: nat, from: int)
    requires History(h) && Fixed(h, limit, window) && Skewed(h, skew)
    ensures CountIn(Admitted(h), from, from + window - skew) <= limit
    decreases |h|
  {
    if h != [] {
      var front, last, to := h[..|h| - 1], h[|h| - 1], from + window - skew;
      NeverMoreThanLimit(front, limit, window, skew, from);
      CountNext(Admitted(front), last.now, from, to);
      if last.allowed && from <= last.now <= to {
        CountKept(front, from, to);
        CountTrimmed(Kept(front), last.Cutoff(), from, to);
        CountAtMost(Trimmed(Kept(front), last.Cutoff()), from, to);
      }
    }
  }

  lemma NextCall(h: seq<Call>, c: Call)
    requires History(h) && (c.allowed <==> |Trimmed(Kept(h), c.Cutoff())| < c.limit)
    ensures History(h + [c]) && Kept(h + [c]) == Extended(Trimmed(Kept(h), c.Cutoff()), c)
    ensures Admitted(h + [c]) == Extended(Admitted(h), c)
  {
    assert (h + [c])[..|h + [c]| - 1] == h;
  }

  /** With a limit of one every admitted call has dropped the one before, whatever the clock reads: there
      is more than a window between the two. */
  lemma {:induction false} OneIsKept(h: seq<Call>, window: nat)
    requires History(h) && Fixed(h, 1, window)
    ensures var s := Admitted(h);
            Kept(h) == (if s == [] then [] else [s[|s| - 1]]) && forall i :: 0 < i < |s| ==> s[i] > s[i - 1] + window
  {
    if h != [] {
      var front, last := h[..|h| - 1], h[|h| - 1];
      OneIsKept(front, window);
      var s := Admitted(front);
      if s != [] {
        OneTrimmed(s[|s| - 1], last.Cutoff());
      }
    }
  }

  lemma OneTrimmed(x: int, cutoff: int)
    ensures Trimmed([x], cutoff) == if x < cutoff then [] else [x]
  {
    assert [x][1..] == [];
  }

  lemma {:induction false} NoneBefore(s: seq<int>, window: nat, from: int, to: int)
    requires (forall i :: 0 < i < |s| ==> s[i] > s[i - 1] + window) && (s != [] ==> s[0] > to)
    ensures CountIn(s, from, to) == 0
  {
    if s != [] {
      assert |s| > 1 ==> s[1..][0] == s[1];
      NoneBefore(s[1..], window, from, to);
    }
  }

  lemma {:induction false} CountSpaced(s: seq<int>, window: nat, from: int)
    requires forall i :: 0 < i < |s| ==> s[i] > s[i - 1] + window
    ensures CountIn(s, from, from + window) <= 1
  {
    if s != [] {
      if from <= s[0] <= from + window {
        assert |s| > 1 ==> s[1..][0] == s[1];
        NoneBefore(s[1..], window, from, from + window);
      } else {
        CountSpaced(s[1..], window, from);
      }
    }
  }

  function Zeros(n: nat): seq<int> { seq(n, _ => 0) }

  /** `n` admitted calls at time 0. */
  function Full(limit: nat, window: nat, n: nat): seq<Call> { seq(n, _ => Call(0, limit, window, true)) }

  lemma {:induction false} FullHistory(limit: nat, window: nat, n: nat)
    requires n <= limit
    ensures var h := Full(limit, window, n);
            History(h) && Kept(h) == Admitted(h) == Zeros(n)
  {
    if n > 0 {
      var c := Call(0, limit, window, true);
      FullHistory(limit, window, n - 1);
      NoneTooOld(n - 1, c.Cutoff());
      NextCall(Full(limit, window, n - 1), c);
      assert Full(limit, window, n) == Full(limit, window, n - 1) + [c] && Zeros(n) == Zeros(n - 1) + [0];
    }
  }

  lemma NoneTooOld(n: nat, cutoff: int)
    requires cutoff <= 0
    ensures Trimmed(Zeros(n), cutoff) == Zeros(n)
  {
  }

  lemma {:induction false} AllTooOld(n: nat)
    ensures Trimmed(Zeros(n), 1) == []
  {
    if n > 0 {
      assert Zeros(n)[1..] == Zeros(n - 1);
      AllTooOld(n - 1);
    }
  }

  /** As many calls as allowed at time 0, one that no longer sees them, and for a limit of at least two
      one that read the clock earlier: from the first to the last there is one call too many. */
  lemma BoundIsTight(limit: nat, window: nat, skew: nat) returns (h: seq<Call>)
    requires 1 <= limit && skew <= window + 1 && (limit == 1 ==> skew == 0)
    ensures History(h) && Fixed(h, limit, window) && Skewed(h, skew)
    ensures forall width: nat :: width >= window + 1 - skew ==> CountIn(Admitted(h), 0, width) > limit
  {
    var late, last := Call(window + 1, limit, window, true), Call(window + 1 - skew, limit, window, true);
    var full := Full(limit, window, limit);
    FullHistory(limit, window, limit);
    AllTooOld(limit);
    NextCall(full, late);
    h := full + [late];
    if limit > 1 {
      NextCall(h, last);
      h := h + [last];
    }
    forall width: nat | width >= window + 1 - skew ensures CountIn(Admitted(h), 0, width) > limit {
      CountAll(Zeros(limit), 0, width);
      CountNext(Zeros(limit), late.now, 0, width);
      CountNext(Zeros(limit) + [late.now], last.now, 0, width);
    }
  }

  ghost predicate WithinLimit(h: seq<Call>, limit: nat, from: int, length: int) {
    CountIn(Admitted(h), from, from + length) <= limit
  }

  /** The exact length: with one limit and one window, and readings that go back by at most `skew`, no
      interval of that length ever holds more than `limit` admitted calls if and only if it is no longer
      than the window less the skew.  For a limit of one the skew does not matter. */
  lemma SafeIff(limit: nat, window: nat, skew: nat, length: int)
    ensures (forall h, from :: History(h) && Fixed(h, limit, window) && Skewed(h, skew) ==>
               WithinLimit(h, limit, from, length)) <==>
            limit == 0 || length < 0 || length <= if limit == 1 then window else window - skew
  {
    if limit == 0 || length < 0 || length <= if limit == 1 then window else window - skew {
      forall h: seq<Call>, from: int | History(h) && Fixed(h, limit, window) && Skewed(h, skew)
        ensures WithinLimit(h, limit, from, length)
      {
        AtMostLimit(h, limit, window, skew, from, length);
      }
    } else {
      var back := if limit == 1 then 0 else if skew <= window + 1 then skew else window + 1;
      var h := BoundIsTight(limit, window, back);
      assert Skewed(h, skew) && !WithinLimit(h, limit, 0, length);
    }
  }

  lemma AtMostLimit(h: seq<Call>, limit: nat, window: nat, skew: nat, from: int, length: int)
    requires History(h) && Fixed(h, limit, window) && Skewed(h, skew)
    requires limit == 0 || length < 0 || length <= if limit == 1 then window else window - skew
    ensures WithinLimit(h, limit, from, length)
  {
    if limit == 0 {
      NothingAdmitted(h);
    } else if length < 0 {
      EmptyInterval(Admitted(h), from, from + length);
    } else if limit == 1 {
      OneIsKept(h, window);
      CountSpaced(Admitted(h), window, from);
      CountWider(Admitted(h), from, from + length, from + window);
    } else {
      NeverMoreThanLimit(h, limit, window, skew, from);
      CountWider(Admitted(h), from, from + length, from + window - skew);
    }
  }

  lemma {:induction false} NothingAdmitted(h: seq<Call>)
    requires History(h) && forall i :: 0 <= i < |h| ==> h[i].limit == 0
    ensures Admitted(h) == []
  {
    if h != [] {
      NothingAdmitted(h[..|h| - 1]);
    }
  }

  lemma {:induction false} EmptyInterval(s: seq<int>, from: int, to: int)
    requires to < from
    ensures CountIn(s, from, to) == 0
  {
    if s != [] {
      EmptyInterval(s[1..], from, to);
    }
  }

  lemma {:induction false} CountWider(s: seq<int>, from: int, to: int, end: int)
    requires to <= end
    ensures CountIn(s, from, to) <= CountIn(s, from, end)
  {
    if s != [] {
      CountWider(s[1..], from, to, end);
    }
  }

  // ---------------------------------------------------------------- refusals

  /** What is kept was read by earlier calls, and later hits are not much older. */
  ghost predicate Spread(s: seq<int>, skew: nat, now: int) {
    (forall i, j :: 0 <= i < j < |s| ==> s[j] >= s[i] - skew) && forall i :: 0 <= i < |s| ==> s[i] <= now + skew
  }

  lemma {:induction false} TrimmedSpread(s: seq<int>, cutoff: int, skew: nat, now: int)
    requires Spread(s, skew, now)
    ensures Spread(Trimmed(s, cutoff), skew, now)
  {
    if s != [] && s[0] < cutoff {
      assert forall i :: 0 <= i < |s[1..]| ==> s[1..][i] == s[i + 1];
      TrimmedSpread(s[1..], cutoff, skew, now);
    }
  }

  lemma {:induction false} KeptSpread(h: seq<Call>, skew: nat, now: int)
    requires Skewed(h, skew) && forall i :: 0 <= i < |h| ==> now >= h[i].now - skew
    ensures Spread(Kept(h), skew, now)
  {
    if h != [] {
      var front, last := h[..|h| - 1], h[|h| - 1];
      KeptSpread(front, skew, now);
      KeptSpread(front, skew, last.now);
      TrimmedSpread(Kept(front), last.Cutoff(), skew, now);
      TrimmedSpread(Kept(front), last.Cutoff(), skew, last.now);
    }
  }

  /** Whatever limits and windows are used, a call is refused only if `limit` admitted calls lie in its
      own window, widened by `skew` at both ends. */
  lemma RefusalIsJustified(h: seq<Call>, c: Call, skew: nat)
    requires History(h + [c]) && Skewed(h + [c], skew) && !c.allowed
    ensures CountIn(Admitted(h), c.Cutoff() - skew, c.now + skew) >= c.limit
  {
    var all := h + [c];
    assert all[..|all| - 1] == h && all[|all| - 1] == c;
    assert forall i :: 0 <= i < |h| ==> all[i] == h[i];
    KeptSpread(h, skew, c.now);
    TrimmedSpread(Kept(h), c.Cutoff(), skew, c.now);
    var t, from, to := Trimmed(Kept(h), c.Cutoff()), c.Cutoff() - skew, c.now + skew;
    forall i | 0 <= i < |t| ensures from <= t[i] <= to {
      assert i > 0 ==> t[i] >= t[0] - skew;
    }
    CountAll(t, from, to);
    CountTrimmed(Kept(h), c.Cutoff(), from, to);
    CountKept(h, from, to);
  }

  /** With one limit and one window, and readings in order, a call is refused exactly when `limit`
      admitted calls lie in its window. */
  lemma RefusedAtLimit(h: seq<Call>, c: Call)
    requires History(h + [c]) && Skewed(h + [c], 0) && Fixed(h + [c], c.limit, c.window) && c.limit >= 0
    ensures !c.allowed <==> CountIn(Admitted(h), c.Cutoff(), c.now) == c.limit
  {
    var all := h + [c];
    assert all[..|all| - 1] == h && all[|all| - 1] == c;
    assert forall i :: 0 <= i < |h| ==> all[i] == h[i];
    NeverMoreThanLimit(h, c.limit, c.window, 0, c.Cutoff());
    if !c.allowed {
      RefusalIsJustified(h, c, 0);
    } else {
      CountKept(h, c.Cutoff(), c.now);
      CountTrimmed(Kept(h), c.Cutoff(), c.Cutoff(), c.now);
      CountAtMost(Trimmed(Kept(h), c.Cutoff()), c.Cutoff(), c.now);
    }
  }

  // ---------------------------------------------------------------- readings in order

  /** The latest beginning of a window, of all calls so far and this one: what lies before it has been
      dropped. */
  function LatestCutoff(h: seq<Call>, cutoff: int): (r: int)
    ensures r >= cutoff
  {
    if h == [] then cutoff else LatestCutoff(h[..|h| - 1], Max(h[|h| - 1].Cutoff(), cutoff))
  }

  lemma {:induction false} LatestMeans(h: seq<Call>, cutoff: int)
    ensures var latest := LatestCutoff(h, cutoff);
            && latest >= cutoff && (forall i :: 0 <= i < |h| ==> latest >= h[i].now - h[i].window)
            && (latest == cutoff || exists i :: 0 <= i < |h| && latest == h[i].now - h[i].window)
  {
    if h != [] {
      var front, last := h[..|h| - 1], h[|h| - 1];
      LatestMeans(front, Max(last.Cutoff(), cutoff));
      assert forall i :: 0 <= i < |front| ==> front[i] == h[i];
    }
  }

  lemma {:induction false} TrimmedAtLatest(h: seq<Call>, now: int, cutoff: int)
    requires Skewed(h, 0) && (forall i :: 0 <= i < |h| ==> h[i].now <= now) && cutoff <= now
    ensures Trimmed(Kept(h), cutoff) == Trimmed(Admitted(h), LatestCutoff(h, cutoff))
  {
    if h != [] {
      var front, last := h[..|h| - 1], h[|h| - 1];
      TrimmedAtLatest(front, last.now, last.Cutoff());
      LatestNotAfter(front, last.Cutoff(), last.now);
      var kept := Trimmed(Kept(front), last.Cutoff());
      assert kept == Trimmed(Admitted(front), LatestCutoff(front, last.Cutoff()));
      if last.allowed {
        TrimmedAppend(Admitted(front), last.now, LatestCutoff(front, last.Cutoff()));
      }
      TrimmedTwice(Admitted(h), LatestCutoff(front, last.Cutoff()), cutoff);
      LatestOfMax(front, last.Cutoff(), cutoff);
    }
  }

  /** With readings in order, the hits left for a call are the admitted ones between the latest beginning of
      a window and now. */
  lemma AfterCall(h: seq<Call>, c: Call)
    requires Skewed(h + [c], 0)
    ensures |Trimmed(Kept(h), c.Cutoff())| == CountIn(Admitted(h), LatestCutoff(h, c.Cutoff()), c.now)
  {
    var all := h + [c];
    assert all[|h|] == c && forall i :: 0 <= i < |h| ==> all[i] == h[i];
    TrimmedAtLatest(h, c.now, c.Cutoff());
    AdmittedInOrder(h, c.now);
    TrimmedCount(Admitted(h), LatestCutoff(h, c.Cutoff()), c.now);
  }

  lemma AfterCallInOrder(h: seq<Call>, c: Call)
    ensures Skewed(h + [c], 0) ==>
              |Trimmed(Kept(h), c.Cutoff())| == |AdmittedIn(h, LatestCutoff(h, c.Cutoff()), c.now)|
  {
    if Skewed(h + [c], 0) {
      AfterCall(h, c);
      CountIsOfCalls(h, LatestCutoff(h, c.Cutoff()), c.now);
    }
  }

  lemma {:induction false} AdmittedInOrder(h: seq<Call>, now: int)
    requires Skewed(h, 0) && forall i :: 0 <= i < |h| ==> h[i].now <= now
    ensures Ascending(Admitted(h)) && forall i :: 0 <= i < |Admitted(h)| ==> Admitted(h)[i] <= now
  {
    if h != [] {
      AdmittedInOrder(h[..|h| - 1], h[|h| - 1].now);
    }
  }

  predicate Ascending(s: seq<int>) { forall i, j :: 0 <= i < j < |s| ==> s[i] <= s[j] }

  /** What trimming leaves is what lies in the window. */
  lemma {:induction false} TrimmedCount(s: seq<int>, cutoff: int, now: int)
    requires Ascending(s) && forall i :: 0 <= i < |s| ==> s[i] <= now
    ensures |Trimmed(s, cutoff)| == CountIn(s, cutoff, now)
  {
    if s != [] && s[0] < cutoff {
      TrimmedCount(s[1..], cutoff, now);
    } else {
      CountAll(s, cutoff, now);
    }
  }

  lemma {:induction false} TrimmedAgain(s: seq<int>, earlier: int, cutoff: int)
    requires earlier <= cutoff
    ensures Trimmed(Trimmed(s, earlier), cutoff) == Trimmed(s, cutoff)
  {
    if s != [] && s[0] < earlier {
      TrimmedAgain(s[1..], earlier, cutoff);
    }
  }

  lemma {:induction false} TrimmedAppend(s: seq<int>, x: int, cutoff: int)
    requires cutoff <= x
    ensures Trimmed(s + [x], cutoff) == Trimmed(s, cutoff) + [x]
  {
    if s == [] {
      assert s + [x] == [x];
    } else if s[0] < cutoff {
      assert (s + [x])[1..] == s[1..] + [x];
      TrimmedAppend(s[1..], x, cutoff);
    }
  }

  lemma TrimmedTwice(s: seq<int>, earlier: int, cutoff: int)
    ensures Trimmed(Trimmed(s, earlier), cutoff) == Trimmed(s, Max(earlier, cutoff))
  {
    if earlier <= cutoff {
      TrimmedAgain(s, earlier, cutoff);
    }
  }

  lemma {:induction false} LatestOfMax(h: seq<Call>, a: int, b: int)
    ensures LatestCutoff(h, Max(a, b)) == Max(LatestCutoff(h, a), b)
  {
    if h != [] {
      LatestOfMax(h[..|h| - 1], Max(h[|h| - 1].Cutoff(), a), b);
      assert Max(h[|h| - 1].Cutoff(), Max(a, b)) == Max(Max(h[|h| - 1].Cutoff(), a), b);
    }
  }

  lemma {:induction false} LatestNotAfter(h: seq<Call>, cutoff: int, now: int)
    requires (forall i :: 0 <= i < |h| ==> h[i].now <= now) && cutoff <= now
    ensures LatestCutoff(h, cutoff) <= now
  {
    if h != [] {
      LatestNotAfter(h[..|h| - 1], Max(h[|h| - 1].Cutoff(), cutoff), now);
    }
  }

  // ---------------------------------------------------------------- the limiter

  class SlidingWindow {
    var hits: map<Key, seq<int>>
    ghost var calls: map<Key, seq<Call>>

    /** The calls of the key form a history, and its hits are what that history leaves. */
    ghost predicate Tracks(key: Key)
      reads this
    {
      History(Of(calls, key)) && Of(hits, key) == Kept(Of(calls, key))
    }

    ghost predicate Valid()
      reads this
    {
      forall key :: Tracks(key)
    }

    constructor ()
      ensures Valid() && calls == map[]
    {
      hits, calls := map[], map[];
    }

    /** Whatever the clock reads, the call joins the history of its key.  With readings in order it is
        refused exactly when `limit` admitted calls of the key lie between the latest beginning of a
        window and now. */
    method Allow(key: Key, limit: int, window: nat, now: int) returns (allowed: bool)
      requires Valid()
      modifies this
      ensures Valid()
      ensures var h, c := Of(old(calls), key), Call(now, limit, window, allowed);
              && calls == old(calls)[key := h + [c]]
              && (allowed <==> |Trimmed(Kept(h), now - window)| < limit)
              && (Skewed(h + [c], 0) ==>
                    (allowed <==> |AdmittedIn(h, LatestCutoff(h, now - window), now)| < limit))
    {
      ghost var h := Of(calls, key);
      assert Tracks(key);
      var kept := TrimHits(Of(hits, key), now - window);
      allowed := |kept| < limit;
      ghost var c := Call(now, limit, window, allowed);
      AfterCallInOrder(h, c);
      NextCall(h, c);
      if allowed {
        kept := kept + [now];
      }
      hits := hits[key := kept];
      calls := calls[key := h + [c]];
      assert Tracks(key);
      OthersTracked(key);
    }

    twostate lemma OthersTracked(key: Key)
      requires old(Valid()) && Tracks(key)
      requires forall other :: other != key ==>
                 Of(hits, other) == Of(old(hits), other) && Of(calls, other) == Of(old(calls), other)
      ensures Valid()
    {
      forall other ensures Tracks(other) {
        assert old(Tracks(other));
      }
    }

    /** A key that is reset starts again from nothing. */
    method Reset(key: Key)
      requires Valid()
      modifies this
      ensures Valid() && hits == old(hits) - {key} && calls == old(calls) - {key}
    {
      hits, calls := hits - {key}, calls - {key};
      OthersTracked(key);
    }
  }

  /** `while hits and hits[0] < cutoff: hits.popleft()` */
  method TrimHits(hits: seq<int>, cutoff: int) returns (r: seq<int>)
    ensures r == Trimmed(hits, cutoff)
  {
    r := hits;
    while r != [] && r[0] < cutoff
      invariant Trimmed(r, cutoff) == Trimmed(hits, cutoff)
      decreases |r|
    {
      r := r[1..];
    }
  }
}
