/** The list of periodic timers and the poll that fires them. */
module Timers {

  /** One more than the largest `unsigned long`, 32 bits wide on Windows. */
  const ULONG: nat := 0x1_0000_0000

  const REPEAT: bv32 := 1
  const RUN_NOW: bv32 := 2

  predicate Repeats(flags: bv32) { flags & REPEAT != 0 }

  // ---------- one timer under a run of polls ----------

  /** What the polls see of a timer: its expiry (0: not set), whether it is still listed, its firings. */
  datatype State = State(expire: nat, listed: bool, fired: nat)

  /** The expiry a poll at `now` works with; `back` says that time went back and all timers were reset. */
  function Due(expire: nat, period: nat, back: bool, now: nat): nat {
    if back || expire == 0 then (now + period) % ULONG else expire
  }

  /** The expiry after a firing that was due at e. */
  function NextExpiry(e: nat, period: nat, now: nat): nat {
    if now - e > period then (now + period) % ULONG else (e + period) % ULONG
  }

  function Tick(x: State, period: nat, repeat: bool, back: bool, now: nat): State {
    if !x.listed then x
    else
      var e := Due(x.expire, period, back, now);
      if e > now then x.(expire := e)
      else State(NextExpiry(e, period, now), repeat, x.fired + 1)
  }

  /** A new timer polled at `times`, the last poll before its creation having been at `start`. */
  function Polled(period: nat, repeat: bool, start: nat, times: seq<nat>): State {
    if times == [] then State(0, true, 0)
    else
      var n := |times| - 1;
      Tick(Polled(period, repeat, start, times[..n]), period, repeat, LastPoll(start, times[..n]) > times[n], times[n])
  }

  function LastPoll(start: nat, times: seq<nat>): nat {
    if times == [] then start else times[|times| - 1]
  }

  /** No expiry computed by the polls wraps around. */
  predicate NoWrap(period: nat, times: seq<nat>) {
    forall k :: 0 <= k < |times| ==> times[k] + period < ULONG
  }

  predicate Forward(start: nat, times: seq<nat>) {
    (times != [] ==> start <= times[0]) && forall i, k :: 0 <= i < k < |times| ==> times[i] <= times[k]
  }

  lemma TickBounds(x: State, period: nat, repeat: bool, back: bool, now: nat)
    requires period > 0 && now + period < ULONG
    requires back || x.expire <= now + period
    ensures var r := Tick(x, period, repeat, back, now); r.listed ==> now <= r.expire <= now + period
  {
  }

  /** Whether or not time goes back: after every poll a listed timer expires within the next period. */
  lemma {:induction false} ExpiryWithinPeriod(period: nat, repeat: bool, start: nat, times: seq<nat>)
    requires period > 0 && times != [] && NoWrap(period, times)
    ensures var x, t := Polled(period, repeat, start, times), LastPoll(start, times);
            x.listed ==> t <= x.expire <= t + period
  {
    hide Tick;
    var n := |times| - 1;
    if n > 0 {
      ExpiryWithinPeriod(period, repeat, start, times[..n]);
    }
    var x := Polled(period, repeat, start, times[..n]);
    if x.listed {
      assert n == 0 ==> x.expire == 0;
      TickBounds(x, period, repeat, LastPoll(start, times[..n]) > times[n], times[n]);
    } else {
      TickUnlisted(x, period, repeat, LastPoll(start, times[..n]) > times[n], times[n]);
    }
  }

  lemma TickUnlisted(x: State, period: nat, repeat: bool, back: bool, now: nat)
    requires !x.listed
    ensures Tick(x, period, repeat, back, now) == x
  {
  }

  /** A timer that does not repeat fires at most once, and is off the list once it has. */
  lemma {:induction false} OneShot(period: nat, start: nat, times: seq<nat>)
    ensures var x := Polled(period, false, start, times);
            x.fired <= 1 && (x.listed <==> x.fired == 0)
  {
    if times != [] {
      OneShot(period, start, times[..|times| - 1]);
    }
  }

  /** A repeating timer stays listed. */
  lemma {:induction false} RepeatingStays(period: nat, start: nat, times: seq<nat>)
    ensures Polled(period, true, start, times).listed
  {
    if times != [] {
      RepeatingStays(period, start, times[..|times| - 1]);
    }
  }

  /** A poll a whole period or more after the previous one fires the timer. */
  lemma FiresWhenDue(period: nat, repeat: bool, start: nat, times: seq<nat>, t: nat)
    requires period > 0 && times != [] && NoWrap(period, times) && LastPoll(start, times) + period <= t
    ensures var x := Polled(period, repeat, start, times);
            x.listed ==> Polled(period, repeat, start, times + [t]).fired == x.fired + 1
  {
    ExpiryWithinPeriod(period, repeat, start, times);
    assert (times + [t])[..|times|] == times;
    var x := Polled(period, repeat, start, times);
    if x.listed && x.expire == 0 {
      assert times[|times| - 1] == 0;
      ExpirySet(period, repeat, start, times);
    }
  }

  lemma TickSet(x: State, period: nat, repeat: bool, back: bool, now: nat)
    requires period > 0 && now + period < ULONG
    requires x.expire > 0 || x.listed
    requires x.listed ==> back || x.expire <= now + period
    ensures Tick(x, period, repeat, back, now).expire > 0
  {
  }

  lemma {:induction false} ExpirySet(period: nat, repeat: bool, start: nat, times: seq<nat>)
    requires period > 0 && times != [] && NoWrap(period, times)
    ensures Polled(period, repeat, start, times).expire > 0
  {
    hide Tick;
    var n := |times| - 1;
    var x := Polled(period, repeat, start, times[..n]);
    if n > 0 {
      ExpirySet(period, repeat, start, times[..n]);
      ExpiryWithinPeriod(period, repeat, start, times[..n]);
    } else {
      assert times[..0] == [];
    }
    TickSet(x, period, repeat, LastPoll(start, times[..n]) > times[n], times[n]);
  }

  /** The poll times are never further apart than the period. */
  predicate Steady(period: nat, times: seq<nat>) {
    forall k :: 0 < k < |times| ==> times[k] - times[k - 1] <= period
  }

  /** The k-th expiry on the grid that starts one period after the first poll. */
  function Grid(first: nat, period: nat, k: nat): nat {
    if k == 0 then first + period else Grid(first, period, k - 1) + period
  }

  lemma {:induction false} GridIsLinear(first: nat, period: nat, k: nat)
    ensures Grid(first, period, k) == first + period + k * period
  {
    if k > 0 {
      GridIsLinear(first, period, k - 1);
      assert k * period == (k - 1) * period + period;
    }
  }

  lemma TickGrid(x: State, period: nat, repeat: bool, before: nat, now: nat, g: nat)
    requires before <= now && now + period < ULONG
    requires x.expire > 0 && x.expire >= g && (x.listed ==> before <= x.expire)
    ensures var r := Tick(x, period, repeat, false, now);
            var g' := if r.fired == x.fired then g else g + period;
            && (r.fired == x.fired || r.fired == x.fired + 1)
            && r.expire >= g'
            && (now - before <= period && x.expire == g ==> r.expire == g')
  {
  }

  lemma TickFirst(period: nat, repeat: bool, back: bool, now: nat)
    requires period > 0 && now + period < ULONG
    ensures Tick(State(0, true, 0), period, repeat, back, now) == State(now + period, true, 0)
  {
  }

  /**
   With time running forward the expiry is never before the grid; when the polls are never further
   apart than the period it is exactly on the grid, so the timer does not drift.
   */
  lemma {:induction false} OnGrid(period: nat, repeat: bool, start: nat, times: seq<nat>)
    requires period > 0 && times != [] && NoWrap(period, times) && Forward(start, times)
    ensures var x := Polled(period, repeat, start, times);
            && x.expire >= Grid(times[0], period, x.fired)
            && (Steady(period, times) ==> x.expire == Grid(times[0], period, x.fired))
  {
    hide Tick;
    var n := |times| - 1;
    if n == 0 {
      assert times[..0] == [];
      TickFirst(period, repeat, start > times[0], times[0]);
    } else {
      var before := times[..n];
      var y := Polled(period, repeat, start, before);
      OnGrid(period, repeat, start, before);
      ExpiryWithinPeriod(period, repeat, start, before);
      ExpirySet(period, repeat, start, before);
      FiredStep(period, repeat, start, times);
      assert Steady(period, times) ==> times[n] - times[n - 1] <= period && Steady(period, before);
      TickGrid(y, period, repeat, times[n - 1], times[n], Grid(times[0], period, y.fired));
    }
  }

  /** A firing happens when its expiry has come. */
  lemma TickFires(x: State, period: nat, repeat: bool, now: nat, g: nat)
    requires x.expire > 0 && x.expire >= g
    ensures var r := Tick(x, period, repeat, false, now);
            r.fired == x.fired || (r.fired == x.fired + 1 && now >= g)
  {
  }

  /** k firings take at least k - 1 periods after the first expiry. */
  lemma {:induction false} FiringsTakeTime(period: nat, repeat: bool, start: nat, times: seq<nat>)
    requires period > 0 && times != [] && NoWrap(period, times) && Forward(start, times)
    ensures var k := Polled(period, repeat, start, times).fired;
            k > 0 ==> LastPoll(start, times) >= times[0] + period + (k - 1) * period
  {
    hide Tick;
    var n := |times| - 1;
    if n == 0 {
      assert times[..0] == [];
      TickFirst(period, repeat, start > times[0], times[0]);
    } else {
      var before := times[..n];
      var y := Polled(period, repeat, start, before);
      FiringsTakeTime(period, repeat, start, before);
      OnGrid(period, repeat, start, before);
      ExpirySet(period, repeat, start, before);
      GridIsLinear(times[0], period, y.fired);
      TickFires(y, period, repeat, times[n], Grid(times[0], period, y.fired));
      FiredStep(period, repeat, start, times);
    }
  }

  lemma FiredStep(period: nat, repeat: bool, start: nat, times: seq<nat>)
    requires |times| > 1 && Forward(start, times)
    ensures var n := |times| - 1;
            var y := Polled(period, repeat, start, times[..n]);
            && Polled(period, repeat, start, times) == Tick(y, period, repeat, false, times[n])
            && LastPoll(start, times[..n]) <= LastPoll(start, times)
  {
  }

  /**
   Polled steadily, a repeating timer has fired exactly once for each grid point before the last
   poll, and possibly once for a grid point at it.
   */
  lemma ExactCount(period: nat, start: nat, times: seq<nat>)
    requires period > 0 && times != [] && NoWrap(period, times) && Forward(start, times) && Steady(period, times)
    ensures var k, t := Polled(period, true, start, times).fired, LastPoll(start, times);
            && t <= times[0] + period + k * period
            && (k > 0 ==> times[0] + period + (k - 1) * period <= t)
  {
    RepeatingStays(period, start, times);
    ExpiryWithinPeriod(period, true, start, times);
    OnGrid(period, true, start, times);
    GridIsLinear(times[0], period, Polled(period, true, start, times).fired);
    FiringsTakeTime(period, true, start, times);
  }

  // ---------- the list ----------

  class Timer {
    const period: nat
    const flags: bv32
    var expire: nat
    var next: Timer?

    constructor (period: nat, flags: bv32, next: Timer?)
      ensures this.period == period && this.flags == flags && this.expire == 0 && this.next == next
    {
      this.period, this.flags, this.expire, this.next := period, flags, 0, next;
    }
  }

  /** The members of `s` that are in `keep`, in order. */
  ghost function Filter(s: seq<Timer>, keep: set<Timer>): seq<Timer> {
    if s == [] then []
    else
      var rest := Filter(s[..|s| - 1], keep);
      if s[|s| - 1] in keep then rest + [s[|s| - 1]] else rest
  }

  lemma {:induction false} FilterMembers(s: seq<Timer>, keep: set<Timer>, t: Timer)
    ensures t in Filter(s, keep) <==> t in s && t in keep
  {
    if s != [] {
      FilterMembers(s[..|s| - 1], keep, t);
      assert s == s[..|s| - 1] + [s[|s| - 1]];
    }
  }

  /** One more element looked at. */
  lemma FilterStep(s: seq<Timer>, k: nat, keep: set<Timer>)
    requires k < |s|
    ensures Filter(s[..k + 1], keep) == Filter(s[..k], keep) + if s[k] in keep then [s[k]] else []
    ensures var all, at := Filter(s[..k], keep) + s[k..], |Filter(s[..k], keep)|;
            && all[at] == s[k] && Without(all, at) == Filter(s[..k], keep) + s[k + 1..]
            && all == Filter(s[..k], keep) + [s[k]] + s[k + 1..]
            && (at + 1 < |all| <==> k + 1 < |s|) && (k + 1 < |s| ==> all[at + 1] == s[k + 1])
  {
    assert s[..k + 1][..k] == s[..k];
  }

  datatype Call = RunNow(t: Timer) | Fired(t: Timer, at: nat)

  function Firings(s: seq<Timer>, now: nat): (r: seq<Call>)
    ensures |r| == |s| && forall i :: 0 <= i < |s| ==> r[i] == Fired(s[i], now)
  {
    seq(|s|, i requires 0 <= i < |s| => Fired(s[i], now))
  }

  /** What a poll makes of a listed timer. */
  ghost function Outcome(t: Timer, back: bool, now: nat): State
    reads t`expire
  {
    Tick(State(t.expire, true, 0), t.period, Repeats(t.flags), back, now)
  }

  /** What a poll makes of each timer of `s`. */
  ghost function Outcomes(s: seq<Timer>, back: bool, now: nat): (o: map<Timer, State>)
    reads s`expire
    ensures forall t :: t in s ==> t in o && o[t] == Outcome(t, back, now)
  {
    map t | t in s :: Outcome(t, back, now)
  }

  ghost predicate Distinct(s: seq<Timer>) {
    forall i, k :: 0 <= i < k < |s| ==> s[i] != s[k]
  }

  /** The list that starts at `head` runs through exactly the timers of `s`, in order. */
  ghost predicate Linked(head: Timer?, s: seq<Timer>)
    reads s`next
  {
    && head == (if s == [] then null else s[0])
    && forall i {:trigger s[i].next} :: 0 <= i < |s| ==> s[i].next == if i + 1 < |s| then s[i + 1] else null
  }

  ghost function Listed(s: seq<Timer>, o: map<Timer, State>): set<Timer>
    requires forall t :: t in s ==> t in o
  {
    set t | t in s && o[t].listed
  }

  ghost function Firing(s: seq<Timer>, o: map<Timer, State>): set<Timer>
    requires forall t :: t in s ==> t in o
  {
    set t | t in s && o[t].fired == 1
  }

  /** Where the timer at k stands on the list while it is polled. */
  lemma FilterAt(s: seq<Timer>, k: nat, keep: set<Timer>)
    requires k < |s|
    ensures var all, at := Filter(s[..k], keep) + s[k..], |Filter(s[..k], keep)|;
            && at < |all| && all[at] == s[k]
            && (at + 1 < |all| <==> k + 1 < |s|) && (k + 1 < |s| ==> all[at + 1] == s[k + 1])
  {
  }

  lemma RoundSpine(s: seq<Timer>, k: nat, keep: set<Timer>, before: seq<Timer>, after: seq<Timer>)
    requires k < |s| && before == Filter(s[..k], keep) + s[k..]
    requires after == if s[k] in keep then before else Without(before, |Filter(s[..k], keep)|)
    ensures after == Filter(s[..k + 1], keep) + s[k + 1..]
  {
    hide Filter;
    FilterStep(s, k, keep);
    assert s[k..] == [s[k]] + s[k + 1..];
  }

  lemma RoundLog(s: seq<Timer>, k: nat, fired: set<Timer>, now: nat)
    requires k < |s|
    ensures Firings(Filter(s[..k + 1], fired), now) ==
            Firings(Filter(s[..k], fired), now) + if s[k] in fired then [Fired(s[k], now)] else []
  {
    FilterStep(s, k, fired);
  }

  lemma ListedFiring(s: seq<Timer>, k: nat, o: map<Timer, State>)
    requires k < |s| && forall t :: t in s ==> t in o
    ensures s[k] in Listed(s, o) <==> o[s[k]].listed
    ensures s[k] in Firing(s, o) <==> o[s[k]].fired == 1
  {
  }

  lemma DistinctAt(s: seq<Timer>, k: nat)
    requires Distinct(s) && k < |s|
    ensures forall i :: 0 <= i < |s| && i != k ==> s[i] != s[k]
  {
  }

  /** What is on the list while it is polled was on it before. */
  lemma SpineInside(s: seq<Timer>, k: nat, keep: set<Timer>)
    requires k <= |s|
    ensures forall t :: t in Filter(s[..k], keep) + s[k..] ==> t in s
  {
    forall t | t in Filter(s[..k], keep) ensures t in s {
      FilterMembers(s[..k], keep, t);
    }
  }

  lemma NothingFiltered(s: seq<Timer>, keep: set<Timer>, fired: set<Timer>, now: nat)
    ensures Filter(s[..0], keep) + s[0..] == s
    ensures Firings(Filter(s[..0], fired), now) == []
  {
  }

  lemma WholeFilter(s: seq<Timer>, keep: set<Timer>, fired: set<Timer>)
    ensures Filter(s[..|s|], keep) + s[|s|..] == Filter(s, keep)
    ensures Filter(s[..|s|], fired) == Filter(s, fired)
  {
    assert s[..|s|] == s && s[|s|..] == [];
  }

  // ---------- the polls each timer has seen ----------

  /** The time of the last poll before a timer was listed, and the polls while it was. */
  datatype History = History(start: nat, times: seq<nat>)

  function StateOf(t: Timer, h: History): State {
    Polled(t.period, Repeats(t.flags), h.start, h.times)
  }

  /** How often a timer has been called by polls. */
  function Calls(log: seq<Call>, t: Timer): nat {
    if log == [] then 0
    else Calls(log[..|log| - 1], t) + if log[|log| - 1].Fired? && log[|log| - 1].t == t then 1 else 0
  }

  /** One more poll, for the listed timers. */
  ghost function Seen(history: map<Timer, History>, spine: seq<Timer>, now: nat): map<Timer, History> {
    map t | t in history :: if t in spine then History(history[t].start, history[t].times + [now]) else history[t]
  }

  lemma CallsSnoc(log: seq<Call>, c: Call)
    ensures forall t :: Calls(log + [c], t) == Calls(log, t) + if c.Fired? && c.t == t then 1 else 0
  {
    assert (log + [c])[..|log|] == log;
  }

  lemma {:induction false} NewTimer(log: seq<Call>, t: Timer)
    requires forall k :: 0 <= k < |log| ==> log[k].t != t
    ensures Calls(log, t) == 0
  {
    if log != [] {
      NewTimer(log[..|log| - 1], t);
    }
  }

  lemma NewHistory(t: Timer, start: nat)
    ensures StateOf(t, History(start, [])) == State(0, true, 0) && LastPoll(start, []) == start
  {
  }

  lemma ListedFirst(t: Timer, s: seq<Timer>)
    requires Distinct(s) && t !in s && Linked(t.next, s)
    ensures Distinct([t] + s) && Linked(t, [t] + s)
  {
    assert forall i :: 0 < i < |[t] + s| ==> ([t] + s)[i] == s[i - 1];
  }

  /** A poll calls each timer that fires once. */
  lemma {:induction false} CallsFirings(log: seq<Call>, s: seq<Timer>, now: nat, t: Timer)
    requires Distinct(s)
    ensures Calls(log + Firings(s, now), t) == Calls(log, t) + if t in s then 1 else 0
  {
    if s == [] {
      assert log + Firings(s, now) == log;
    } else {
      var init, last := s[..|s| - 1], s[|s| - 1];
      CallsFirings(log, init, now, t);
      CallsSnoc(log + Firings(init, now), Fired(last, now));
      assert log + Firings(s, now) == log + Firings(init, now) + [Fired(last, now)];
      assert s == init + [last];
    }
  }

  lemma {:induction false} FilterDistinct(s: seq<Timer>, keep: set<Timer>)
    requires Distinct(s)
    ensures Distinct(Filter(s, keep))
  {
    if s != [] {
      var init := s[..|s| - 1];
      FilterDistinct(init, keep);
      forall t | t in Filter(init, keep) ensures t in init {
        FilterMembers(init, keep, t);
      }
      assert s[|s| - 1] !in init by {
        assert forall i :: 0 <= i < |init| ==> init[i] == s[i];
      }
    }
  }

  /** One more poll on the history of a timer is one tick of its state. */
  lemma SeenOnce(t: Timer, h: History, now: nat)
    ensures StateOf(t, History(h.start, h.times + [now])) ==
            Tick(StateOf(t, h), t.period, Repeats(t.flags), LastPoll(h.start, h.times) > now, now)
    ensures LastPoll(h.start, h.times + [now]) == now
  {
    assert (h.times + [now])[..|h.times|] == h.times;
  }

  /** The firings before the tick do not matter to it. */
  lemma TickShift(expire: nat, fired: nat, period: nat, repeat: bool, back: bool, now: nat)
    ensures var r := Tick(State(expire, true, 0), period, repeat, back, now);
            r.fired <= 1 && Tick(State(expire, true, fired), period, repeat, back, now) == r.(fired := fired + r.fired)
  {
  }

  /** What the poll at `now` will make of each listed timer is one more tick of its history. */
  ghost predicate Foreseen(s: seq<Timer>, o: map<Timer, State>, now: nat, log: seq<Call>,
                           history: map<Timer, History>)
  {
    forall t :: t in s ==>
      && t in o && t in history && o[t].fired <= 1
      && StateOf(t, History(history[t].start, history[t].times + [now])) ==
         o[t].(fired := Calls(log, t) + o[t].fired)
  }

  /** The list after the element at k has been unlinked. */
  ghost function Without(s: seq<Timer>, k: nat): seq<Timer>
    requires k < |s|
  {
    s[..k] + s[k + 1..]
  }

  lemma WithoutKeeps(s: seq<Timer>, k: nat)
    requires Distinct(s) && k < |s|
    ensures Distinct(Without(s, k)) && forall t :: t in Without(s, k) ==> t in s
  {
  }

  /** The links once the one before k has been made to point past it. */
  lemma Relinked(s: seq<Timer>, k: nat)
    requires Distinct(s) && 0 < k < |s|
    requires forall i {:trigger s[i].next} :: 0 <= i < |s| && i != k - 1 ==>
               s[i].next == if i + 1 < |s| then s[i + 1] else null
    requires s[k - 1].next == if k + 1 < |s| then s[k + 1] else null
    ensures Linked(s[0], Without(s, k))
  {
    var w := Without(s, k);
    forall i | 0 <= i < |w| ensures w[i].next == if i + 1 < |w| then w[i + 1] else null {
      if i < k {
        assert w[i] == s[i];
      } else {
        assert w[i] == s[i + 1];
      }
    }
  }

  class TimerList {
    var head: Timer?
    var lastPoll: nat
    var log: seq<Call>          // the callbacks made
    ghost var spine: seq<Timer>
    ghost var history: map<Timer, History>   // for every timer that was ever listed, the polls it was on the list for

    /** The list is linked as `spine` says. */
    ghost predicate Shape()
      reads this, spine`next
    {
      Distinct(spine) && Linked(head, spine)
    }

    /**
     The list is well-formed, and every timer's state is what its polls, taken one by one, make of
     it: its expiry while it is listed, and always the number of its calls.
     */
    ghost predicate Valid()
      reads this, spine`next, spine`expire
    {
      && Shape()
      && (forall t :: t in spine ==> t in history && StateOf(t, history[t]) == State(t.expire, true, Calls(log, t)))
      && (forall t :: t in spine ==> LastPoll(history[t].start, history[t].times) == lastPoll)
      && (forall t :: t in history ==> StateOf(t, history[t]).fired == Calls(log, t))
      && (forall k :: 0 <= k < |log| ==> log[k].t in history)
    }

    constructor ()
      ensures Valid() && spine == [] && log == [] && lastPoll == 0 && history == map[]
    {
      head, lastPoll, log, spine, history := null, 0, [], [], map[];
    }

    /** Over every run: after a poll, a listed timer expires within its period. */
    lemma ExpiresSoon(t: Timer)
      requires Valid() && t in spine && t.period > 0
      requires history[t].times != [] && NoWrap(t.period, history[t].times)
      ensures lastPoll <= t.expire <= lastPoll + t.period
    {
      ExpiryWithinPeriod(t.period, Repeats(t.flags), history[t].start, history[t].times);
    }

    /**
     Over every run: the polls call a timer that does not repeat at most once, and with time running
     forward k calls take at least k - 1 periods after its first expiry.
     */
    lemma CallsTakeTime(t: Timer)
      requires Valid() && t in history && t.period > 0
      requires var h := history[t]; h.times != [] && NoWrap(t.period, h.times) && Forward(h.start, h.times)
      ensures !Repeats(t.flags) ==> Calls(log, t) <= 1
      ensures var h, k := history[t], Calls(log, t);
              k > 0 ==> LastPoll(h.start, h.times) >= h.times[0] + t.period + (k - 1) * t.period
    {
      var h := history[t];
      if !Repeats(t.flags) {
        OneShot(t.period, h.start, h.times);
      }
      FiringsTakeTime(t.period, Repeats(t.flags), h.start, h.times);
    }

    /** `mg_timer_init`. */
    method Init(period: nat, flags: bv32) returns (t: Timer)
      requires Valid()
      modifies this
      ensures Valid() && fresh(t) && spine == [t] + old(spine) && lastPoll == old(lastPoll)
      ensures t.period == period && t.flags == flags && t.expire == 0
      ensures log == old(log) + if flags & RUN_NOW != 0 then [RunNow(t)] else []
      ensures history == old(history)[t := History(lastPoll, [])]
    {
      hide StateOf, Calls, LastPoll, Distinct, Linked;
      ghost var spine0, log0, history0 := spine, log, history;
      t := new Timer(period, flags, head);
      head := t;
      spine := [t] + spine;
      history := history[t := History(lastPoll, [])];
      if flags & RUN_NOW != 0 {
        log := log + [RunNow(t)];
      }
      ListedFirst(t, spine0);
      InitValid(t, spine0, log0, history0);
    }

    /** The new timer has seen no poll and been called by none. */
    lemma InitValid(t: Timer, spine0: seq<Timer>, log0: seq<Call>, history0: map<Timer, History>)
      requires Shape() && spine == [t] + spine0 && t !in history0 && t.expire == 0
      requires log == log0 || log == log0 + [RunNow(t)]
      requires history == history0[t := History(lastPoll, [])]
      requires forall x :: x in spine0 ==>
                 x in history0 && StateOf(x, history0[x]) == State(x.expire, true, Calls(log0, x))
      requires forall x :: x in spine0 ==> LastPoll(history0[x].start, history0[x].times) == lastPoll
      requires forall x :: x in history0 ==> StateOf(x, history0[x]).fired == Calls(log0, x)
      requires forall k :: 0 <= k < |log0| ==> log0[k].t in history0
      ensures Valid()
    {
      hide StateOf, Calls, LastPoll, Distinct, Linked;
      NewTimer(log0, t);
      NewHistory(t, lastPoll);
      CallsSnoc(log0, RunNow(t));
    }

    /**
     `mg_timer_free`: walk to the link that points at t and make it point past t. The ghost k is
     where t stands, or the length of the list if it is not listed; `all` holds every timer listed.
     */
    method Free(t: Timer, ghost k: nat, ghost all: seq<Timer>)
      requires Shape() && k <= |spine| && forall x :: x in spine ==> x in all
      requires if k == |spine| then t !in spine else spine[k] == t
      modifies this`head, this`spine, all`next
      ensures Shape() && spine == if k < |old(spine)| then Without(old(spine), k) else old(spine)
      ensures t.next == old(t.next)
      ensures old(Valid()) ==> Valid()
    {
      hide StateOf, Calls, LastPoll, Distinct, Linked;
      ghost var before := spine;
      Unlink(t, k, all);
      if k < |spine| {
        WithoutKeeps(before, k);
        spine := Without(spine, k);
      }
    }

    /** The walk over the links, and the link past t. */
    method Unlink(t: Timer, ghost k: nat, ghost all: seq<Timer>)
      requires Shape() && k <= |spine| && forall x :: x in spine ==> x in all
      requires if k == |spine| then t !in spine else spine[k] == t
      modifies this`head, all`next
      ensures Linked(head, if k < |spine| then Without(spine, k) else spine)
      ensures t.next == old(t.next)
    {
      if head == null {
        return;
      }
      if head == t {
        head := t.next;
      } else {
        var prev := head;
        ghost var i: nat := 0;
        while prev.next != null && prev.next != t
          invariant i < |spine| && prev == spine[i] && i < k
          decreases |spine| - i
        {
          prev := prev.next;
          i := i + 1;
        }
        assert prev in spine && prev in all;
        assert k == i + 1;
        if prev.next != null {
          prev.next := t.next;
          Relinked(spine, k);
        }
      }
    }

    /** The poll has dealt with the first k timers of `s`; `o` is what it makes of each. */
    ghost predicate Polling(s: seq<Timer>, k: nat, o: map<Timer, State>, back: bool, now: nat, log0: seq<Call>)
      reads this, spine`next, s`expire
    {
      && Shape() && k <= |s| && (forall t :: t in s ==> t in o) && Distinct(s)
      && spine == Filter(s[..k], Listed(s, o)) + s[k..]
      && (forall i :: k <= i < |s| ==> Outcome(s[i], back, now) == o[s[i]] && (back ==> s[i].expire == 0))
      && (forall i :: 0 <= i < k && s[i] in Listed(s, o) ==> s[i].expire == o[s[i]].expire)
      && log == log0 + Firings(Filter(s[..k], Firing(s, o)), now)
    }

    /** One round of the poll's loop. */
    method Round(t: Timer, ghost s: seq<Timer>, ghost k: nat, ghost o: map<Timer, State>, ghost back: bool,
                 now: nat, ghost log0: seq<Call>)
      returns (next: Timer?)
      requires Polling(s, k, o, back, now, log0) && k < |s| && t == s[k]
      modifies this`head, this`spine, this`log, s
      ensures Polling(s, k + 1, o, back, now, log0)
      ensures next == if k + 1 < |s| then s[k + 1] else null
    {
      hide Filter, Outcome, Firings, Without, Distinct, Listed, Firing;
      ghost var at := |Filter(s[..k], Listed(s, o))|;
      FilterAt(s, k, Listed(s, o));
      SpineInside(s, k, Listed(s, o));
      ghost var spine0, log1 := spine, log;
      ListedFiring(s, k, o);
      next := t.next;
      PollOne(t, now, at, back, s);
      RoundSpine(s, k, Listed(s, o), spine0, spine);
      RoundLog(s, k, Firing(s, o), now);
      DistinctAt(s, k);
      ghost var before, added := Firings(Filter(s[..k], Firing(s, o)), now), log[|log1|..];
      assert log0 + before + added == log0 + (before + added);
    }

    /** `mg_timer_poll`. */
    method Poll(now: nat)
      requires Valid()
      modifies this, spine
      ensures Valid() && lastPoll == now
      ensures var s, o := old(spine), old(Outcomes(spine, lastPoll > now, now));
              && spine == Filter(s, Listed(s, o))
              && log == old(log) + Firings(Filter(s, Firing(s, o)), now)
              && (forall t :: t in s && t in spine ==> t.expire == o[t].expire)
      ensures history == Seen(old(history), old(spine), now)
    {
      hide Outcomes, Filter, Firing, Listed, Firings, Seen, Foreseen, StateOf, Distinct, Linked, Calls, LastPoll;
      ghost var s, log0, before := spine, log, history;
      ghost var o := Outcomes(s, lastPoll > now, now);
      Foresee(now, o);
      PollEach(now, o);
      history := Seen(history, s, now);
      PolledValid(s, o, now, log0, before);
    }

    lemma Foresee(now: nat, o: map<Timer, State>)
      requires Valid() && o == Outcomes(spine, lastPoll > now, now)
      ensures Foreseen(spine, o, now, log, history)
    {
      hide Tick, Polled, LastPoll, Calls, Distinct, Linked;
      forall t | t in spine
        ensures o[t].fired <= 1
        ensures StateOf(t, History(history[t].start, history[t].times + [now])) ==
                o[t].(fired := Calls(log, t) + o[t].fired)
      {
        SeenOnce(t, history[t], now);
        TickShift(t.expire, Calls(log, t), t.period, Repeats(t.flags), lastPoll > now, now);
      }
    }

    /** The history with one more poll matches the state after the poll. */
    lemma PolledValid(s: seq<Timer>, o: map<Timer, State>, now: nat, log0: seq<Call>, before: map<Timer, History>)
      requires Shape() && lastPoll == now && Distinct(s) && Foreseen(s, o, now, log0, before)
      requires spine == Filter(s, Listed(s, o)) && log == log0 + Firings(Filter(s, Firing(s, o)), now)
      requires forall t :: t in s && t in spine ==> t.expire == o[t].expire
      requires history == Seen(before, s, now)
      requires forall t :: t in before ==> StateOf(t, before[t]).fired == Calls(log0, t)
      requires forall k :: 0 <= k < |log0| ==> log0[k].t in before
      ensures Valid()
    {
      hide Filter, StateOf, Distinct, Linked, Calls;
      var fired := Filter(s, Firing(s, o));
      FilterDistinct(s, Firing(s, o));
      forall t | t in before
        ensures t in spine ==> t in s && o[t].listed
        ensures t in fired <==> t in s && o[t].fired == 1
        ensures Calls(log, t) == Calls(log0, t) + if t in fired then 1 else 0
      {
        FilterMembers(s, Listed(s, o), t);
        FilterMembers(s, Firing(s, o), t);
        CallsFirings(log0, fired, now, t);
      }
      forall t | t in spine ensures t in before && LastPoll(history[t].start, history[t].times) == now {
        FilterMembers(s, Listed(s, o), t);
        SeenOnce(t, before[t], now);
      }
      forall k | 0 <= k < |log| ensures log[k].t in history {
        if k >= |log0| {
          FilterMembers(s, Firing(s, o), fired[k - |log0|]);
        }
      }
    }

    /** The poll itself. */
    method PollEach(now: nat, ghost o: map<Timer, State>)
      requires Shape() && o == Outcomes(spine, lastPoll > now, now)
      modifies this`head, this`lastPoll, this`log, this`spine, spine
      ensures Shape() && lastPoll == now
      ensures var s := old(spine);
              && spine == Filter(s, Listed(s, o))
              && log == old(log) + Firings(Filter(s, Firing(s, o)), now)
              && (forall t :: t in s && t in spine ==> t.expire == o[t].expire)
    {
      hide *;
      ghost var s, back, log0 := spine, lastPoll > now, log;
      Prepare(now, o);
      PollStarts(s, o, back, now, log0);
      PollAll(s, o, back, now, log0);
      PollDone(s, o, back, now, log0);
    }

    /** The poll has dealt with every timer. */
    lemma PollDone(s: seq<Timer>, o: map<Timer, State>, back: bool, now: nat, log0: seq<Call>)
      requires Polling(s, |s|, o, back, now, log0)
      ensures Shape() && (forall t :: t in s ==> t in o) && spine == Filter(s, Listed(s, o))
      ensures log == log0 + Firings(Filter(s, Firing(s, o)), now)
      ensures forall t :: t in s && t in spine ==> t.expire == o[t].expire
    {
      hide Outcome, Firings, Filter, Listed, Firing;
      WholeFilter(s, Listed(s, o), Firing(s, o));
      forall x | x in s && x in spine ensures x.expire == o[x].expire {
        FilterMembers(s, Listed(s, o), x);
      }
    }

    /** What starting the loop needs. */
    lemma PollStarts(s: seq<Timer>, o: map<Timer, State>, back: bool, now: nat, log0: seq<Call>)
      requires Polling(s, 0, o, back, now, log0)
      ensures s == spine && head == if s == [] then null else s[0]
    {
      hide Outcome, Firings, Listed, Firing;
    }

    /** The start of the poll: reset the timers if time went back, and remember the time. */
    method Prepare(now: nat, ghost o: map<Timer, State>)
      requires Shape() && forall t :: t in spine ==> t in o && o[t] == Outcome(t, lastPoll > now, now)
      modifies this`lastPoll, spine`expire
      ensures Polling(spine, 0, o, old(lastPoll) > now, now, log) && lastPoll == now
    {
      hide Tick, Outcome, Firings, Filter, Listed, Firing, Linked, Distinct;
      NothingFiltered(spine, Listed(spine, o), Firing(spine, o), now);
      if lastPoll > now {
        Reset(now);
      }
      lastPoll := now;
    }

    /** The poll's loop over the list. */
    method PollAll(ghost s: seq<Timer>, ghost o: map<Timer, State>, ghost back: bool, now: nat, ghost log0: seq<Call>)
      requires Polling(s, 0, o, back, now, log0) && head == if s == [] then null else s[0]
      modifies this`head, this`spine, this`log, s
      ensures Polling(s, |s|, o, back, now, log0)
    {
      hide Outcome;
      var t := head;
      ghost var k: nat := 0;
      while t != null
        invariant k <= |s| && Polling(s, k, o, back, now, log0)
        invariant t == if k < |s| then s[k] else null
        decreases |s| - k
      {
        t := Round(t, s, k, o, back, now, log0);
        k := k + 1;
      }
    }

    /** Time went back: every timer starts over. */
    method Reset(ghost now: nat)
      requires Shape()
      modifies spine`expire
      ensures forall i :: 0 <= i < |spine| ==> spine[i].expire == 0
      ensures forall i :: 0 <= i < |spine| ==> Outcome(spine[i], true, now) == old(Outcome(spine[i], true, now))
    {
      var t := head;
      ghost var i: nat := 0;
      while t != null
        invariant i <= |spine| && t == if i < |spine| then spine[i] else null
        invariant forall q :: 0 <= q < i ==> spine[q].expire == 0
        decreases |spine| - i
      {
        t.expire := 0;
        t := t.next;
        i := i + 1;
      }
    }

    /** The body of the poll's loop, on the timer at position `at`. */
    method PollOne(t: Timer, now: nat, ghost at: nat, ghost back: bool, ghost all: seq<Timer>)
      requires Shape() && at < |spine| && spine[at] == t && (back ==> t.expire == 0)
      requires forall x :: x in spine ==> x in all
      modifies this`head, this`spine, this`log, t`expire, all`next
      ensures Shape()
      ensures var o := old(Outcome(t, back, now));
              && spine == (if o.listed then old(spine) else Without(old(spine), at))
              && (o.listed ==> t.expire == o.expire)
              && log == old(log) + if o.fired == 1 then [Fired(t, now)] else []
    {
      if t.expire == 0 {
        t.expire := (now + t.period) % ULONG;
      }
      if t.expire > now {
        return;
      }
      log := log + [Fired(t, now)];
      t.expire := if now - t.expire > t.period then (now + t.period) % ULONG else (t.expire + t.period) % ULONG;
      if !Repeats(t.flags) {
        Free(t, at, all);
      }
    }
  }

  // ---------- the edges, with literal values ----------

  /** The flag bits, and the width of time. */
  lemma FlagBits(flags: bv32)
    ensures Repeats(flags) <==> flags & 1 != 0
    ensures RUN_NOW == 2 && ULONG == 4294967296
  {
  }

  /** The first poll fires a timer exactly when its period is zero or its expiry wraps around. */
  lemma FirstPoll(fired: nat, period: nat, repeat: bool, back: bool, now: nat)
    requires now < 4294967296 && period < 4294967296
    ensures Tick(State(0, true, fired), period, repeat, back, now).fired ==
            if period == 0 || now + period >= 4294967296 then fired + 1 else fired
  {
  }

  /** A timer whose time has not come is left alone, unless time went back. */
  lemma NotYet(expire: nat, fired: nat, period: nat, repeat: bool, now: nat)
    requires expire > now
    ensures Tick(State(expire, true, fired), period, repeat, false, now) == State(expire, true, fired)
  {
  }

  /** A timer that is due fires; it keeps its rhythm unless it is late by more than a period. */
  lemma IsDue(expire: nat, fired: nat, period: nat, repeat: bool, now: nat)
    requires 0 < expire <= now && now + period < 4294967296
    ensures Tick(State(expire, true, fired), period, repeat, false, now) ==
            State(if now > expire + period then now + period else expire + period, repeat, fired + 1)
  {
  }

  /** Time that goes back starts every timer over. */
  lemma StartsOver(expire: nat, fired: nat, period: nat, repeat: bool, now: nat)
    requires 0 < period && now + period < 4294967296
    ensures Tick(State(expire, true, fired), period, repeat, true, now) == State(now + period, true, fired)
  {
  }
}
