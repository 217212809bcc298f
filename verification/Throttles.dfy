/** The stream throttle: at most one item per period, and never a stale one. */
module Throttles {
  import opened Options

  datatype Poll<+T> = Pending | Ready(value: T)

  // ---------------------------------------------------------------- one poll, as a function

  /** The throttle, its inner stream, and which of them will wake the task. `timer` is the
      deadline of the armed timer. */
  datatype State<T> = State(
    timer: Option<nat>,
    timerWake: bool,
    queue: seq<T>,
    closed: bool,
    streamWake: bool)

  /** `poll_next`: `now` is the clock when the timer is polled and `armed` the clock when a new
      timer is set. */
  function PollState<T>(period: nat, s: State<T>, now: nat, armed: nat): (State<T>, Poll<Option<T>>) {
    if s.timer.Some? then
      if now < s.timer.value then (s.(timerWake := true), Pending)
      else if s.closed then (s.(timer := None, timerWake := false, queue := []), Ready(None))
      else if s.queue == [] then (s.(timer := None, timerWake := false, streamWake := true), Pending)
      else
        (State(Some(armed + period), false, [], false, true), Ready(Some(s.queue[|s.queue| - 1])))
    else if s.queue != [] then
      (s.(timer := Some(armed + period), timerWake := false, queue := s.queue[1..]), Ready(Some(s.queue[0])))
    else if s.closed then
      (s.(timer := Some(armed + period), timerWake := false), Ready(None))
    else
      (s.(streamWake := true), Pending)
  }

  // ---------------------------------------------------------------- one poll, in place

  /** A channel's receiving end. */
  class Channel<T> {
    var queue: seq<T>
    var closed: bool
    var wake: bool

    method PollNext() returns (r: Poll<Option<T>>)
      modifies this
      ensures closed == old(closed)
      ensures old(queue) != [] ==> r == Ready(Some(old(queue)[0])) && queue == old(queue)[1..] && wake == old(wake)
      ensures old(queue) == [] ==> queue == [] && r == (if closed then Ready(None) else Pending)
      ensures old(queue) == [] ==> wake == (old(wake) || !closed)
    {
      if queue != [] {
        r := Ready(Some(queue[0]));
        queue := queue[1..];
      } else if closed {
        r := Ready(None);
      } else {
        wake := true;
        r := Pending;
      }
    }
  }

  datatype Timer = Timer(deadline: nat, wake: bool)

  class Throttle<T> {
    const period: nat
    const stream: Channel<T>
    var timer: Option<Timer>

    ghost function Contents(): State<T>
      reads this, stream
    {
      State(if timer.Some? then Some(timer.value.deadline) else None,
            timer.Some? && timer.value.wake,
            stream.queue, stream.closed, stream.wake)
    }

    constructor (period: nat, stream: Channel<T>)
      ensures this.period == period && this.stream == stream
      ensures Contents() == State(None, false, stream.queue, stream.closed, stream.wake)
    {
      this.period := period;
      this.stream := stream;
      this.timer := None;
    }

    method PollNext(now: nat, armed: nat) returns (r: Poll<Option<T>>)
      requires now <= armed
      modifies this, stream
      ensures (Contents(), r) == PollState(period, old(Contents()), now, armed)
    {
      if timer.Some? {
        if now < timer.value.deadline {
          timer := Some(timer.value.(wake := true));
          return Pending;
        }
        var lastPoll: Poll<Option<T>> := Pending;
        var item := stream.PollNext();
        while item.Ready?
          invariant timer == old(timer)
          invariant stream.closed == old(stream.closed)
          invariant |stream.queue| <= |old(stream.queue)|
          invariant stream.queue == old(stream.queue)[|old(stream.queue)| - |stream.queue|..]
          invariant item.Ready? && item.value.Some? ==>
                      && |stream.queue| < |old(stream.queue)|
                      && item.value.value == old(stream.queue)[|old(stream.queue)| - |stream.queue| - 1]
                      && stream.wake == old(stream.wake)
          invariant item.Ready? && item.value.None? ==>
                      stream.queue == [] && stream.closed && stream.wake == old(stream.wake)
          invariant item.Pending? ==> stream.queue == [] && !stream.closed && stream.wake
          invariant item.Pending? ==>
                      lastPoll == if old(stream.queue) == [] then Pending
                                  else Ready(Some(old(stream.queue)[|old(stream.queue)| - 1]))
          invariant lastPoll.Ready? ==> lastPoll.value.Some?
          decreases |stream.queue|, if item.Ready? && item.value.Some? then 1 else 0
        {
          if item.value.None? {
            timer := None;
            return Ready(None);
          }
          lastPoll := item;
          item := stream.PollNext();
        }
        timer := if lastPoll.Ready? then Some(Timer(armed + period, false)) else None;
        r := lastPoll;
      } else {
        var item := stream.PollNext();
        if item.Ready? {
          timer := Some(Timer(armed + period, false));
        }
        r := item;
      }
    }
  }

  // ---------------------------------------------------------------- runs

  /** `pick` is the position of the emitted item among all the items offered. */
  datatype Emission<T> = Emission(time: nat, item: T, pick: nat)

  /** A throttle with the history of its run. `woken` is since when the task has been due for a
      poll; `taken` are the times at which the items offered first were taken off the queue. */
  datatype World<T> = World(
    throttle: State<T>,
    clock: nat,
    offered: seq<T>,
    arrivals: seq<nat>,
    taken: seq<nat>,
    emitted: seq<Emission<T>>,
    sawClose: bool,
    woken: Option<nat>)

  datatype Event<T> =
    | Arrive(time: nat, item: T)
    | Close(time: nat)
    | Polled(now: nat, armed: nat)

  function Start<T>(): World<T> {
    World(State(None, false, [], false, false), 0, [], [], [], [], false, Some(0))
  }

  /** The clock never runs backwards, and nothing arrives after the close. */
  predicate Legal<T>(w: World<T>, e: Event<T>) {
    match e
    case Arrive(t, _) => w.clock <= t && !w.throttle.closed
    case Close(t) => w.clock <= t && !w.throttle.closed
    case Polled(now, armed) => w.clock <= now <= armed
  }

  /** A registered stream waker fires when the stream changes. */
  function Woken<T>(w: World<T>, t: nat): Option<nat> {
    if w.woken.Some? then w.woken else if w.throttle.streamWake then Some(t) else None
  }

  function Times(n: nat, t: nat): (ts: seq<nat>)
    ensures |ts| == n && forall i :: 0 <= i < n ==> ts[i] == t
  {
    seq(n, _ => t)
  }

  function Step<T>(period: nat, w: World<T>, e: Event<T>): World<T>
    requires Legal(w, e)
  {
    match e
    case Arrive(t, item) =>
      w.(clock := t, offered := w.offered + [item], arrivals := w.arrivals + [t], woken := Woken(w, t),
         throttle := w.throttle.(queue := w.throttle.queue + [item], streamWake := false))
    case Close(t) =>
      w.(clock := t, woken := Woken(w, t), throttle := w.throttle.(closed := true, streamWake := false))
    case Polled(now, armed) =>
      var (s, r) := PollState(period, w.throttle, now, armed);
      var count := |w.throttle.queue| - |s.queue|;
      w.(throttle := s, clock := armed,
         taken := w.taken + Times(count, armed),
         emitted := if r.Ready? && r.value.Some?
                    then w.emitted + [Emission(armed, r.value.value, |w.taken| + count - 1)]
                    else w.emitted,
         sawClose := w.sawClose || (r.Ready? && r.value.None?),
         woken := if r.Ready? then Some(armed) else None)
  }

  /** The state after a run; None when some event in it was not legal. */
  function Run<T>(period: nat, events: seq<Event<T>>): Option<World<T>> {
    if events == [] then Some(Start())
    else
      var before := Run(period, events[..|events| - 1]);
      var e := events[|events| - 1];
      if before.Some? && Legal(before.value, e) then Some(Step(period, before.value, e)) else None
  }

  lemma RunMore<T>(period: nat, events: seq<Event<T>>, e: Event<T>)
    requires Run(period, events).Some? && Legal(Run(period, events).value, e)
    ensures Run(period, events + [e]) == Some(Step(period, Run(period, events).value, e))
  {
    assert (events + [e])[..|events|] == events;
  }

  // ---------------------------------------------------------------- rate

  /** Consecutive emissions are at least a period apart. */
  ghost predicate Spaced<T>(period: nat, emitted: seq<Emission<T>>) {
    forall k :: 0 < k < |emitted| ==> emitted[k].time >= emitted[k - 1].time + period
  }

  /** An armed timer covers the period after the last emission; no timer means it is over. */
  ghost predicate RateInv<T>(period: nat, w: World<T>) {
    && Spaced(period, w.emitted)
    && (w.emitted != [] ==>
          var due := w.emitted[|w.emitted| - 1].time + period;
          if w.throttle.timer.Some? then due <= w.throttle.timer.value else due <= w.clock)
  }

  lemma {:induction false} RunsAreSpaced<T>(period: nat, events: seq<Event<T>>)
    requires Run(period, events).Some?
    ensures RateInv(period, Run(period, events).value)
  {
    if events != [] {
      RunsAreSpaced(period, events[..|events| - 1]);
      RateStep(period, Run(period, events[..|events| - 1]).value, events[|events| - 1]);
    }
  }

  lemma SpacedAppend<T>(period: nat, emitted: seq<Emission<T>>, e: Emission<T>)
    requires Spaced(period, emitted)
    requires emitted != [] ==> e.time >= emitted[|emitted| - 1].time + period
    ensures Spaced(period, emitted + [e])
  {
  }

  lemma RateStep<T>(period: nat, w: World<T>, e: Event<T>)
    requires RateInv(period, w) && Legal(w, e)
    ensures RateInv(period, Step(period, w, e))
  {
    if e.Polled? {
      var r := PollState(period, w.throttle, e.now, e.armed).1;
      var w' := Step(period, w, e);
      if r.Ready? && r.value.Some? {
        SpacedAppend(period, w.emitted, w'.emitted[|w.emitted|]);
        assert w'.emitted == w.emitted + [w'.emitted[|w.emitted|]];
      } else {
        assert w'.emitted == w.emitted;
      }
    }
  }

  lemma {:induction false} SpacedApart<T>(period: nat, emitted: seq<Emission<T>>, i: nat, j: nat)
    requires Spaced(period, emitted) && i <= j < |emitted|
    ensures emitted[j].time >= emitted[i].time + (j - i) * period
    decreases j
  {
    if i < j {
      SpacedApart(period, emitted, i, j - 1);
      assert (j - i) * period == (j - 1 - i) * period + period;
    }
  }

  ghost function EmittedWithin<T>(emitted: seq<Emission<T>>, from: nat, length: nat): set<nat> {
    set k: nat | k < |emitted| && from <= emitted[k].time <= from + length
  }

  lemma {:induction false} IntervalSize(s: set<nat>, lo: nat, hi: nat)
    requires lo <= hi && forall k :: k in s ==> lo <= k < hi
    ensures |s| <= hi - lo
    decreases hi
  {
    if lo == hi {
      assert s == {};
    } else {
      IntervalSize(s - {hi - 1}, lo, hi - 1);
    }
  }

  lemma SmallMultiple(d: int, period: nat)
    requires period > 0 && d * period < period
    ensures d <= 0
  {
  }

  lemma QuotientBound(n: nat, period: nat, length: nat)
    requires period > 0 && n * period <= length
    ensures n <= length / period
  {
    assert (n - length / period) * period == n * period - (length / period) * period;
    SmallMultiple(n - length / period, period);
  }

  /** In every run, a closed interval of length L holds at most floor(L / period) + 1 emissions. */
  lemma RateBound<T>(period: nat, events: seq<Event<T>>, from: nat, length: nat)
    requires period > 0 && Run(period, events).Some?
    ensures |EmittedWithin(Run(period, events).value.emitted, from, length)| <= length / period + 1
  {
    RunsAreSpaced(period, events);
    var emitted := Run(period, events).value.emitted;
    var within := EmittedWithin(emitted, from, length);
    if within != {} {
      var first :| first in within && forall k :: k in within ==> first <= k by {
        LeastExists(within);
      }
      forall k | k in within
        ensures first <= k < first + length / period + 1
      {
        SpacedApart(period, emitted, first, k);
        QuotientBound(k - first, period, length);
      }
      IntervalSize(within, first, first + length / period + 1);
    }
  }

  lemma {:induction false} LeastExists(s: set<nat>)
    requires s != {}
    ensures exists least :: least in s && forall k :: k in s ==> least <= k
    decreases s
  {
    var x :| x in s;
    if exists y :: y in s && y < x {
      var below := set y | y in s && y < x;
      var y :| y in s && y < x;
      assert y in below && below <= s - {x};
      LeastExists(below);
      var least :| least in below && forall k :: k in below ==> least <= k;
      assert forall k :: k in s ==> k in below || x <= k;
      assert forall k :: k in s ==> least <= k;
    }
  }

  // ---------------------------------------------------------------- freshness

  /** Emitted items are offered items at increasing positions below `taken`. */
  ghost predicate Picks<T>(offered: seq<T>, taken: nat, emitted: seq<Emission<T>>) {
    && taken <= |offered|
    && (forall k :: 0 <= k < |emitted| ==> emitted[k].pick < taken && emitted[k].item == offered[emitted[k].pick])
    && (forall k :: 0 < k < |emitted| ==> emitted[k - 1].pick < emitted[k].pick)
  }

  /** Emitted items are a subsequence of the items taken; until the close is seen, the last item
      taken is the last item emitted. */
  ghost predicate FreshInv<T>(w: World<T>) {
    && Picks(w.offered, |w.taken|, w.emitted)
    && w.throttle.queue == w.offered[|w.taken|..]
    && (!w.sawClose && w.taken != [] ==>
          w.emitted != [] && w.emitted[|w.emitted| - 1].pick == |w.taken| - 1)
  }

  lemma {:induction false} RunsAreFresh<T>(period: nat, events: seq<Event<T>>)
    requires Run(period, events).Some?
    ensures FreshInv(Run(period, events).value)
  {
    if events != [] {
      RunsAreFresh(period, events[..|events| - 1]);
      var w := Run(period, events[..|events| - 1]).value;
      FreshStep(period, w, events[|events| - 1]);
    }
  }

  lemma FreshStep<T>(period: nat, w: World<T>, e: Event<T>)
    requires FreshInv(w) && Legal(w, e)
    ensures FreshInv(Step(period, w, e))
  {
    match e
    case Arrive(_, item) =>
      assert (w.offered + [item])[|w.taken|..] == w.offered[|w.taken|..] + [item];
    case Close(_) =>
    case Polled(_, _) => FreshPoll(period, w, e);
  }

  lemma PicksAppend<T>(offered: seq<T>, taken: nat, emitted: seq<Emission<T>>, taken': nat, e: Emission<T>)
    requires Picks(offered, taken, emitted) && taken <= taken' <= |offered|
    requires taken <= e.pick < taken' && e.item == offered[e.pick]
    ensures Picks(offered, taken', emitted + [e])
  {
  }

  /** What a poll takes off the queue, and which of it it returns. */
  lemma PollTakesAPrefix<T>(period: nat, s: State<T>, now: nat, armed: nat) returns (count: nat)
    ensures var (s', r) := PollState(period, s, now, armed);
      && count <= |s.queue| && s'.queue == s.queue[count..] && |s'.queue| == |s.queue| - count
      && (r.Pending? ==> count == 0)
      && (r.Ready? && r.value.Some? ==> count > 0 && r.value.value == s.queue[count - 1])
  {
    count := |s.queue| - |PollState(period, s, now, armed).0.queue|;
  }

  lemma FreshPoll<T>(period: nat, w: World<T>, e: Event<T>)
    requires FreshInv(w) && Legal(w, e) && e.Polled?
    ensures FreshInv(Step(period, w, e))
  {
    var w' := Step(period, w, e);
    var count := PollTakesAPrefix(period, w.throttle, e.now, e.armed);
    DropMore(w.offered, |w.taken|, count);
    var r := PollState(period, w.throttle, e.now, e.armed).1;
    if r.Ready? && r.value.Some? {
      var last := Emission(e.armed, r.value.value, |w.taken| + count - 1);
      PicksAppend(w.offered, |w.taken|, w.emitted, |w'.taken|, last);
    }
  }

  lemma DropMore<T>(s: seq<T>, m: nat, n: nat)
    requires m + n <= |s|
    ensures s[m..][n..] == s[m + n..]
    ensures n > 0 ==> s[m..][n - 1] == s[m + n - 1]
  {
  }

  /** The leading edge: without a timer, a poll takes the oldest item not yet taken, and no other, emits
      it at once and arms the timer. */
  lemma LeadingEdge<T>(period: nat, events: seq<Event<T>>, now: nat, armed: nat)
    requires Run(period, events).Some? && Legal(Run(period, events).value, Polled(now, armed))
    requires var w := Run(period, events).value; w.throttle.timer.None? && |w.taken| < |w.offered|
    ensures var w := Run(period, events).value;
      var w' := Step(period, w, Polled(now, armed));
      && w'.taken == w.taken + [armed]
      && w'.emitted == w.emitted + [Emission(armed, w.offered[|w.taken|], |w.taken|)]
      && w'.throttle.timer == Some(armed + period)
  {
    RunsAreFresh(period, events);
    TakeStep(period, Run(period, events).value, now, armed);
  }

  lemma TakeStep<T>(period: nat, w: World<T>, now: nat, armed: nat)
    requires FreshInv(w) && Legal(w, Polled(now, armed))
    requires w.throttle.timer.None? && |w.taken| < |w.offered|
    ensures var w' := Step(period, w, Polled(now, armed));
      && w'.taken == w.taken + [armed]
      && w'.emitted == w.emitted + [Emission(armed, w.offered[|w.taken|], |w.taken|)]
      && w'.throttle.timer == Some(armed + period)
  {
    hide Picks;
    assert w.throttle.queue[0] == w.offered[|w.taken|];
    assert Times(1, armed) == [armed];
  }

  /** The trailing edge: when the timer of an open stream is due, a poll takes everything offered so
      far, emits the newest of it and arms the timer again; with nothing to take it drops the timer. */
  lemma TrailingEdge<T>(period: nat, events: seq<Event<T>>, now: nat, armed: nat)
    requires Run(period, events).Some? && Legal(Run(period, events).value, Polled(now, armed))
    requires var s := Run(period, events).value.throttle; s.timer.Some? && s.timer.value <= now && !s.closed
    ensures var w := Run(period, events).value;
      var w' := Step(period, w, Polled(now, armed));
      && w'.taken == w.taken + Times(|w.throttle.queue|, armed) && |w'.taken| == |w.offered|
      && if |w.taken| == |w.offered| then w'.emitted == w.emitted && w'.throttle.timer == None
         else
           var newest := |w.offered| - 1;
           w'.emitted == w.emitted + [Emission(armed, w.offered[newest], newest)]
           && w'.throttle.timer == Some(armed + period)
  {
    RunsAreFresh(period, events);
    DrainStep(period, Run(period, events).value, now, armed);
  }

  lemma DrainStep<T>(period: nat, w: World<T>, now: nat, armed: nat)
    requires FreshInv(w) && Legal(w, Polled(now, armed))
    requires w.throttle.timer.Some? && w.throttle.timer.value <= now && !w.throttle.closed
    ensures var w' := Step(period, w, Polled(now, armed));
      && w'.taken == w.taken + Times(|w.throttle.queue|, armed) && |w'.taken| == |w.offered|
      && if w.throttle.queue == [] then w'.emitted == w.emitted && w'.throttle.timer == None
         else
           var newest := |w.offered| - 1;
           w'.emitted == w.emitted + [Emission(armed, w.offered[newest], newest)]
           && w'.throttle.timer == Some(armed + period)
  {
    assert |w.taken| + |w.throttle.queue| == |w.offered|;
  }

  /** Before its timer is due a throttle takes nothing, emits nothing and keeps the timer. */
  lemma EarlyPollChangesNothing<T>(period: nat, w: World<T>, now: nat, armed: nat)
    requires Legal(w, Polled(now, armed)) && w.throttle.timer.Some? && now < w.throttle.timer.value
    ensures var w' := Step(period, w, Polled(now, armed));
      && w'.taken == w.taken && w'.emitted == w.emitted && w'.sawClose == w.sawClose
      && w'.throttle == w.throttle.(timerWake := true) && w'.woken == None
  {
  }

  /** A poll that sees the close without a timer arms one, so the next poll before it is due is Pending;
      one that sees it at a deadline leaves none. */
  lemma CloseAndTheTimer<T>(period: nat, s: State<T>, now: nat, armed: nat)
    requires SeesClose(s, now)
    ensures var (s', r) := PollState(period, s, now, armed);
      && r == Ready(None) && s'.queue == [] && s'.closed && s'.streamWake == s.streamWake && !s'.timerWake
      && s'.timer == if s.timer.None? then Some(armed + period) else None
  {
  }

  /** Until the close is seen, every item taken was emitted or superseded by a later emitted one. */
  lemma EveryDropIsSuperseded<T>(period: nat, events: seq<Event<T>>, i: nat)
    requires Run(period, events).Some? && !Run(period, events).value.sawClose
    requires i < |Run(period, events).value.taken|
    ensures var w := Run(period, events).value;
      exists k :: 0 <= k < |w.emitted| && i <= w.emitted[k].pick
  {
    RunsAreFresh(period, events);
    var w := Run(period, events).value;
    assert w.emitted[|w.emitted| - 1].pick >= i;
  }

  /** The newest item offered has been delivered. */
  ghost predicate NewestDelivered<T>(w: World<T>) {
    w.emitted != [] && w.emitted[|w.emitted| - 1].pick == |w.offered| - 1
  }

  /** When a poll sees the close: with an armed timer, at its deadline whatever is queued. */
  predicate SeesClose<T>(s: State<T>, now: nat) {
    s.closed && if s.timer.Some? then s.timer.value <= now else s.queue == []
  }

  /** The poll that sees the close delivers nothing: everything still queued is taken and lost. */
  lemma CloseDropsTheQueue<T>(period: nat, events: seq<Event<T>>, now: nat, armed: nat)
    requires Run(period, events).Some?
    requires var w := Run(period, events).value; !w.sawClose && w.offered != [] && Legal(w, Polled(now, armed))
    ensures var w := Run(period, events).value;
      var w' := Step(period, w, Polled(now, armed));
      && (w'.sawClose <==> SeesClose(w.throttle, now))
      && (w'.sawClose ==> w'.throttle.queue == [] && w'.emitted == w.emitted && |w'.taken| == |w'.offered|)
      && (w'.sawClose ==> (NewestDelivered(w') <==> w.throttle.queue == []))
  {
    RunsAreFresh(period, events);
    var w := Run(period, events).value;
    FreshStep(period, w, Polled(now, armed));
    if w.throttle.queue == [] {
      assert |w.taken| == |w.offered|;
    }
  }

  /** What can be told at the close, or at any time until it is seen: an armed timer loses all that is
      queued, and without one only the first item gets out before the timer is armed again. */
  predicate KeepsNewest<T>(s: State<T>) {
    s.queue == [] || (s.timer.None? && |s.queue| == 1)
  }

  /** Once the stream is closed, whatever happens until the close is seen and after it, the newest item
      is delivered if and only if nothing is queued, or it alone is and no timer is armed. */
  lemma {:induction false} CloseDeliversTheNewestIff<T>(period: nat, events: seq<Event<T>>, more: seq<Event<T>>)
    requires Run(period, events).Some? && Run(period, events + more).Some?
    requires var w := Run(period, events).value; w.throttle.closed && !w.sawClose && w.offered != []
    ensures var w, w' := Run(period, events).value, Run(period, events + more).value;
      && w'.throttle.closed && w'.offered == w.offered
      && if w'.sawClose then w'.throttle.queue == [] && (NewestDelivered(w') <==> KeepsNewest(w.throttle))
         else KeepsNewest(w'.throttle) <==> KeepsNewest(w.throttle)
    decreases |more|
  {
    if more == [] {
      assert events + more == events;
    } else {
      var last := |more| - 1;
      assert (events + more)[..|events + more| - 1] == events + more[..last];
      CloseDeliversTheNewestIff(period, events, more[..last]);
      RunsAreFresh(period, events + more[..last]);
      var w := Run(period, events + more[..last]).value;
      if !w.sawClose && more[last].Polled? {
        CloseDropsTheQueue(period, events + more[..last], more[last].now, more[last].armed);
      }
    }
  }

  /** A run in which the last item offered is lost: it is queued behind an armed timer when the
      stream closes. */
  lemma CloseCanLoseAnItem()
    ensures var events := [Arrive(0, 'a'), Polled(0, 0), Arrive(1, 'b'), Close(2), Polled(10, 10)];
      && Run(10, events).Some?
      && Run(10, events).value.sawClose
      && Run(10, events).value.offered == ['a', 'b']
      && Run(10, events).value.emitted == [Emission(0, 'a', 0)]
  {
    var w := Run<char>(10, []).value;
    hide Run;
    RunMore(10, [], Arrive(0, 'a'));
    var e1: seq<Event<char>> := [] + [Arrive(0, 'a')];
    RunMore(10, e1, Polled(0, 0));
    var e2 := e1 + [Polled(0, 0)];
    RunMore(10, e2, Arrive(1, 'b'));
    var e3 := e2 + [Arrive(1, 'b')];
    RunMore(10, e3, Close(2));
    var e4 := e3 + [Close(2)];
    RunMore(10, e4, Polled(10, 10));
    var e5 := e4 + [Polled(10, 10)];
    assert e5 == [Arrive(0, 'a'), Polled(0, 0), Arrive(1, 'b'), Close(2), Polled(10, 10)];
  }

  // ---------------------------------------------------------------- wakeup and latency

  /** The task is polled within `lag` of a wake: of the last wake-up not yet served, and of the
      deadline of a timer that will wake it. */
  ghost predicate Prompt<T>(w: World<T>, e: Event<T>, lag: nat) {
    var t := if e.Polled? then e.armed else e.time;
    && (w.woken.Some? ==> t <= w.woken.value + lag)
    && (w.throttle.timer.Some? && w.throttle.timerWake ==> t <= w.throttle.timer.value + lag)
  }

  ghost predicate PromptRun<T>(period: nat, events: seq<Event<T>>, lag: nat)
    requires Run(period, events).Some?
  {
    events == []
    || (PromptRun(period, events[..|events| - 1], lag)
        && Prompt(Run(period, events[..|events| - 1]).value, events[|events| - 1], lag))
  }

  /** A task that is not already due for a poll will be woken: by the armed timer, or, when there is
      none, by the empty open stream. A stream waker is only ever registered on an empty open stream. */
  ghost predicate WakeInv<T>(period: nat, w: World<T>) {
    && (w.woken.Some? ==> w.woken.value <= w.clock)
    && (w.throttle.timer.Some? ==> w.throttle.timer.value <= w.clock + period)
    && (w.throttle.timerWake ==> w.throttle.timer.Some?)
    && (w.throttle.streamWake ==> w.throttle.queue == [] && !w.throttle.closed)
    && (w.woken.None? ==> if w.throttle.timer.Some? then w.throttle.timerWake else w.throttle.streamWake)
  }

  lemma {:induction false} RunsAlwaysWake<T>(period: nat, events: seq<Event<T>>)
    requires Run(period, events).Some?
    ensures WakeInv(period, Run(period, events).value)
  {
    if events != [] {
      RunsAlwaysWake(period, events[..|events| - 1]);
    }
  }

  /** What a `Pending` leaves behind, for every state: an unfired timer that will wake the task,
      or no timer and a waker on an empty open stream. */
  lemma PendingLeavesAWakeSource<T>(period: nat, s: State<T>, now: nat, armed: nat)
    requires PollState(period, s, now, armed).1 == Pending
    ensures var s' := PollState(period, s, now, armed).0;
      if s'.timer.Some? then
        s'.timerWake && now < s'.timer.value && s'.queue == s.queue && s'.streamWake == s.streamWake
      else s'.streamWake && s'.queue == [] && !s'.closed
  {
  }

  /** The timer runs out on a non-empty queue of an open stream: the poll drains the queue, which leaves
      a waker with the stream, and arms a new timer. */
  predicate Drains<T>(s: State<T>, now: nat) {
    s.timer.Some? && s.timer.value <= now && s.queue != [] && !s.closed
  }

  /** Some poll of the run was a drain, and there have only been polls since. */
  ghost predicate QuietSinceDrain<T>(period: nat, events: seq<Event<T>>)
    requires Run(period, events).Some?
  {
    events != [] &&
    var before, e := events[..|events| - 1], events[|events| - 1];
    e.Polled? && (Drains(Run(period, before).value.throttle, e.now) || QuietSinceDrain(period, before))
  }

  /** In every run, a waker is left with the stream beside an armed timer if and only if a drain emptied
      the queue and nothing has arrived since. */
  lemma {:induction false} TwoWakeSourcesIff<T>(period: nat, events: seq<Event<T>>)
    requires Run(period, events).Some?
    ensures var s := Run(period, events).value.throttle;
      && (s.timer.Some? ==> (s.streamWake <==> QuietSinceDrain(period, events)))
      && (QuietSinceDrain(period, events) ==> s.streamWake)
  {
    if events != [] {
      var before := events[..|events| - 1];
      TwoWakeSourcesIff(period, before);
      RunsAlwaysWake(period, before);
    }
  }

  /** A run that ends with a `Pending` and both wakers registered. */
  lemma PendingCanLeaveTwoWakeSources()
    ensures var events := [Arrive(0, 'a'), Polled(0, 0), Polled(0, 0), Arrive(1, 'b'), Polled(10, 10), Polled(11, 11)];
      && Run(10, events).Some?
      && Run(10, events).value.woken.None?
      && Run(10, events).value.throttle == State(Some(20), true, [], false, true)
  {
    var w := Run<char>(10, []).value;
    hide Run;
    RunMore(10, [], Arrive(0, 'a'));
    var e1: seq<Event<char>> := [] + [Arrive(0, 'a')];
    RunMore(10, e1, Polled(0, 0));
    var e2 := e1 + [Polled(0, 0)];
    RunMore(10, e2, Polled(0, 0));
    var e3 := e2 + [Polled(0, 0)];
    RunMore(10, e3, Arrive(1, 'b'));
    var e4 := e3 + [Arrive(1, 'b')];
    RunMore(10, e4, Polled(10, 10));
    var e5 := e4 + [Polled(10, 10)];
    RunMore(10, e5, Polled(11, 11));
    var e6 := e5 + [Polled(11, 11)];
    assert e6 == [Arrive(0, 'a'), Polled(0, 0), Polled(0, 0), Arrive(1, 'b'), Polled(10, 10), Polled(11, 11)];
  }

  /** How late the items still queued can be, and how late the others were. */
  ghost predicate LatencyInv<T>(period: nat, lag: nat, w: World<T>) {
    && |w.taken| <= |w.arrivals| == |w.offered|
    && (forall i :: 0 <= i < |w.taken| ==> w.taken[i] <= w.arrivals[i] + period + 2 * lag)
    && (forall i :: |w.taken| <= i < |w.arrivals| ==>
          && w.arrivals[i] <= w.clock <= w.arrivals[i] + period + 2 * lag
          && (w.throttle.timer.Some? ==> w.throttle.timer.value <= w.arrivals[i] + period + lag)
          && (w.throttle.timer.Some? && !w.throttle.timerWake ==>
                w.woken.Some? && w.woken.value <= w.arrivals[i] + lag)
          && (w.throttle.timer.None? ==> w.woken.Some? && w.woken.value <= w.arrivals[i]))
  }

  lemma {:induction false} RunsAreTimely<T>(period: nat, lag: nat, events: seq<Event<T>>)
    requires Run(period, events).Some? && PromptRun(period, events, lag)
    requires !Run(period, events).value.sawClose
    ensures LatencyInv(period, lag, Run(period, events).value)
  {
    if events != [] {
      var before := events[..|events| - 1];
      var w := Run(period, before).value;
      RunsAreTimely(period, lag, before);
      RunsAreFresh(period, before);
      RunsAlwaysWake(period, before);
      TimelyStep(period, lag, w, events[|events| - 1]);
    }
  }

  lemma TimelyStep<T>(period: nat, lag: nat, w: World<T>, e: Event<T>)
    requires FreshInv(w) && WakeInv(period, w) && LatencyInv(period, lag, w)
    requires Legal(w, e) && Prompt(w, e, lag) && !Step(period, w, e).sawClose
    ensures LatencyInv(period, lag, Step(period, w, e))
  {
  }

  /** Item `i` or a later one is emitted by time `t`. */
  ghost predicate DeliveredBy<T>(w: World<T>, i: nat, t: nat) {
    exists k :: 0 <= k < |w.emitted| && i <= w.emitted[k].pick && w.emitted[k].time <= t
  }

  /** Until the close is seen, an item is emitted or superseded at the moment it is taken. */
  lemma {:induction false} TakenIsDelivered<T>(period: nat, events: seq<Event<T>>, i: nat)
    requires Run(period, events).Some? && !Run(period, events).value.sawClose
    requires i < |Run(period, events).value.taken|
    ensures var w := Run(period, events).value; DeliveredBy(w, i, w.taken[i])
  {
    var before := events[..|events| - 1];
    var w, w' := Run(period, before).value, Run(period, events).value;
    RunsAreFresh(period, before);
    RunsAreFresh(period, events);
    if i < |w.taken| {
      TakenIsDelivered(period, before, i);
      var k :| 0 <= k < |w.emitted| && i <= w.emitted[k].pick && w.emitted[k].time <= w.taken[i];
      assert w'.emitted[k] == w.emitted[k];
    } else {
      assert w'.emitted[|w'.emitted| - 1].time == w'.taken[i];
    }
  }

  /** While the stream is open, every item is emitted or superseded within one period and twice the
      scheduling lag of its arrival; with no lag, within the period. */
  lemma ItemsAreDeliveredInTime<T>(period: nat, lag: nat, events: seq<Event<T>>, i: nat)
    requires Run(period, events).Some? && PromptRun(period, events, lag)
    requires !Run(period, events).value.sawClose
    requires i < |Run(period, events).value.offered|
    ensures var w := Run(period, events).value;
      && i < |w.arrivals|
      && var due := w.arrivals[i] + period + 2 * lag;
      && (i < |w.taken| || w.clock > due ==> DeliveredBy(w, i, due))
  {
    RunsAreTimely(period, lag, events);
    var w := Run(period, events).value;
    if i < |w.taken| {
      TakenIsDelivered(period, events, i);
      var k :| 0 <= k < |w.emitted| && i <= w.emitted[k].pick && w.emitted[k].time <= w.taken[i];
      assert w.emitted[k].time <= w.arrivals[i] + period + 2 * lag;
    }
  }

  /** An item still queued is not late yet, whatever happens next. */
  lemma QueuedItemsAreNotLate<T>(period: nat, lag: nat, events: seq<Event<T>>, i: nat, e: Event<T>)
    requires Run(period, events).Some? && PromptRun(period, events, lag)
    requires !Run(period, events).value.sawClose
    requires |Run(period, events).value.taken| <= i < |Run(period, events).value.offered|
    requires Legal(Run(period, events).value, e) && Prompt(Run(period, events).value, e, lag)
    ensures var w := Run(period, events).value;
      |w.arrivals| == |w.offered| && (if e.Polled? then e.armed else e.time) <= w.arrivals[i] + period + 2 * lag
  {
    RunsAreTimely(period, lag, events);
    RunsAreFresh(period, events);
  }
}
