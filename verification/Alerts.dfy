/** The poller's alerts: failure streaks per subsystem, and the two throttled alarms. */
module Alerts {

  const FAIL_ALERT_AT := 3

  datatype Event = Event(name: string, ok: bool)
  datatype Message = Page(name: string) | Recovery(name: string)

  function Streak(streaks: map<string, nat>, name: string): nat { if name in streaks then streaks[name] else 0 }

  /** subsystemFailed and subsystemOk: the counters, and the message sent. */
  function Observe(streaks: map<string, nat>, e: Event): (r: (map<string, nat>, seq<Message>)) {
    if e.ok then
      (streaks[e.name := 0], if Streak(streaks, e.name) >= FAIL_ALERT_AT then [Recovery(e.name)] else [])
    else
      var n := Streak(streaks, e.name) + 1;
      (streaks[e.name := n], if n == FAIL_ALERT_AT then [Page(e.name)] else [])
  }

  function StateAfter(es: seq<Event>): map<string, nat> {
    if es == [] then map[] else Observe(StateAfter(es[..|es| - 1]), es[|es| - 1]).0
  }

  /** Everything sent over a sequence of events, in order. */
  function Sent(es: seq<Event>): seq<Message> {
    if es == [] then []
    else Sent(es[..|es| - 1]) + Observe(StateAfter(es[..|es| - 1]), es[|es| - 1]).1
  }

  // ---------------------------------------------------------------- one subsystem, seen alone

  function Of(es: seq<Event>, name: string): seq<bool> {
    if es == [] then []
    else
      var last := es[|es| - 1];
      Of(es[..|es| - 1], name) + (if last.name == name then [last.ok] else [])
  }

  function For(ms: seq<Message>, name: string): seq<Message> {
    if ms == [] then []
    else For(ms[..|ms| - 1], name) + (if ms[|ms| - 1].name == name then [ms[|ms| - 1]] else [])
  }

  /** A failure run starts at i: it is a failure and the observation before it is not. */
  predicate StartsRun(obs: seq<bool>, i: nat) {
    i < |obs| && !obs[i] && (i == 0 || obs[i - 1])
  }

  /** From i on, at least k failures in a row. */
  predicate FailsFor(obs: seq<bool>, i: nat, k: nat) {
    i + k <= |obs| && forall j :: i <= j < i + k ==> !obs[j]
  }

  /** The maximal failure runs of at least three, by where they start. */
  function LongRuns(obs: seq<bool>): set<nat> {
    set i: nat | i < |obs| && StartsRun(obs, i) && FailsFor(obs, i, 3)
  }

  /** Those of them that a success has closed. */
  function ClosedRuns(obs: seq<bool>): set<nat> {
    set i: nat | i in LongRuns(obs) && exists j :: i < j < |obs| && obs[j]
  }

  /** Length of the failure run the observations end in. */
  function Tail(obs: seq<bool>): (n: nat)
    ensures n <= |obs| && (forall j :: |obs| - n <= j < |obs| ==> !obs[j])
    ensures n < |obs| ==> obs[|obs| - n - 1]
  {
    if obs == [] || obs[|obs| - 1] then 0 else 1 + Tail(obs[..|obs| - 1])
  }

  predicate Alternates(ms: seq<Message>) {
    forall i :: 0 <= i < |ms| ==> (ms[i].Page? <==> i % 2 == 0)
  }

  function Pages(ms: seq<Message>): nat {
    if ms == [] then 0 else Pages(ms[..|ms| - 1]) + (if ms[|ms| - 1].Page? then 1 else 0)
  }

  function Recoveries(ms: seq<Message>): nat {
    if ms == [] then 0 else Recoveries(ms[..|ms| - 1]) + (if ms[|ms| - 1].Recovery? then 1 else 0)
  }

  /** Each subsystem's counter is the length of its own current failure run. */
  lemma {:induction false} StreakIsTail(es: seq<Event>, name: string)
    ensures Streak(StateAfter(es), name) == Tail(Of(es, name))
  {
    if es != [] {
      var n := |es| - 1;
      StreakIsTail(es[..n], name);
      var obs := Of(es[..n], name);
      if es[n].name == name {
        assert (obs + [es[n].ok])[..|obs|] == obs;
      } else {
        assert obs + [] == obs;
      }
    }
  }

  lemma {:induction false} ForAppend(ms: seq<Message>, more: seq<Message>, name: string)
    requires |more| <= 1
    ensures For(ms + more, name) == For(ms, name) + (if |more| == 1 && more[0].name == name then more else [])
  {
    if |more| == 1 {
      assert (ms + more)[..|ms|] == ms;
    } else {
      assert ms + more == ms;
    }
  }

  /** A success after i appends nothing to the runs of i's past; only the end of the sequence matters. */
  lemma {:induction false} LongRunsGrow(obs: seq<bool>, ok: bool)
    ensures LongRuns(obs + [ok]) ==
            LongRuns(obs) + (if !ok && Tail(obs) == FAIL_ALERT_AT - 1 then {|obs| - (FAIL_ALERT_AT - 1)} else {})
    ensures !ok && Tail(obs) == FAIL_ALERT_AT - 1 ==> |obs| - (FAIL_ALERT_AT - 1) !in LongRuns(obs)
  {
    var more, n := obs + [ok], Tail(obs);
    forall i: nat | i in LongRuns(more) ensures i in LongRuns(obs) || (!ok && n == 2 && i == |obs| - 2) {
      if i + 3 <= |obs| {
        assert forall j :: i <= j < i + 3 ==> obs[j] == more[j];
      } else {
        assert i + 2 == |obs| && more[i + 2] == ok;
        assert obs[i] == more[i] && obs[i + 1] == more[i + 1];
        assert i > 0 ==> obs[i - 1] == more[i - 1];
      }
    }
    forall i: nat | i in LongRuns(obs) ensures i in LongRuns(more) {
      assert forall j :: i <= j < i + 3 ==> obs[j] == more[j];
      assert i > 0 ==> obs[i - 1] == more[i - 1];
    }
    if !ok && n == 2 {
      var i: nat := |obs| - 2;
      assert more[i] == obs[i] && more[i + 1] == obs[i + 1] && more[i + 2] == ok;
      assert i > 0 ==> more[i - 1] == obs[i - 1];
      assert i in LongRuns(more);
    }
  }

  /** The run the observations end in, if it is long, is the only one not yet closed. */
  lemma {:induction false} OpenRun(obs: seq<bool>)
    ensures LongRuns(obs) - ClosedRuns(obs) == if Tail(obs) >= FAIL_ALERT_AT then {|obs| - Tail(obs)} else {}
  {
    var n := Tail(obs);
    forall i: nat | i in LongRuns(obs) - ClosedRuns(obs) ensures n >= 3 && i == |obs| - n {
      assert forall j :: i <= j < |obs| ==> !obs[j];
      assert n < |obs| ==> obs[|obs| - n - 1];
      assert i == 0 || obs[i - 1];
    }
    if n >= 3 {
      var i: nat := |obs| - n;
      assert StartsRun(obs, i) && FailsFor(obs, i, 3);
      assert i in LongRuns(obs);
      assert forall j :: i < j < |obs| ==> !obs[j];
    }
  }

  /** What has been sent about one subsystem, against its own observations alone. */
  ghost predicate PagedRight(obs: seq<bool>, ms: seq<Message>) {
    var open := if Tail(obs) >= FAIL_ALERT_AT then 1 else 0;
    && Pages(ms) == |LongRuns(obs)|
    && Recoveries(ms) == |LongRuns(obs)| - open
    && |ms| == Pages(ms) + Recoveries(ms)
    && Alternates(ms)
  }

  lemma {:induction false} PagedStep(obs: seq<bool>, ms: seq<Message>, name: string, ok: bool)
    requires PagedRight(obs, ms)
    ensures var n := Tail(obs);
            var more := if ok then (if n >= FAIL_ALERT_AT then [Recovery(name)] else [])
                        else (if n + 1 == FAIL_ALERT_AT then [Page(name)] else []);
            PagedRight(obs + [ok], ms + more)
  {
    hide LongRuns;
    var n := Tail(obs);
    var more := if ok then (if n >= FAIL_ALERT_AT then [Recovery(name)] else [])
                else (if n + 1 == FAIL_ALERT_AT then [Page(name)] else []);
    LongRunsGrow(obs, ok);
    assert (obs + [ok])[..|obs|] == obs;
    if more == [] {
      assert ms + more == ms;
    } else {
      assert (ms + more)[..|ms|] == ms;
    }
  }

  /**
   * Over any events of any subsystems: the pages about one are its failure runs of at least three,
   * its recoveries are those runs a success has closed, and the two strictly alternate.
   */
  lemma {:induction false} StreakPaging(es: seq<Event>, name: string)
    ensures var obs, ms := Of(es, name), For(Sent(es), name);
            && Pages(ms) == |LongRuns(obs)| && Recoveries(ms) == |ClosedRuns(obs)| && Alternates(ms)
  {
    StreakPagedRight(es, name);
    var obs := Of(es, name);
    OpenRun(obs);
    assert ClosedRuns(obs) <= LongRuns(obs);
    assert LongRuns(obs) == ClosedRuns(obs) + (LongRuns(obs) - ClosedRuns(obs));
    assert |LongRuns(obs)| == |ClosedRuns(obs)| + |LongRuns(obs) - ClosedRuns(obs)|;
  }

  lemma {:induction false} StreakPagedRight(es: seq<Event>, name: string)
    ensures PagedRight(Of(es, name), For(Sent(es), name))
  {
    if es == [] {
      assert LongRuns([]) == {};
    } else {
      hide PagedRight;
      var n := |es| - 1;
      var prev, last := es[..n], es[n];
      StreakPagedRight(prev, name);
      StreakIsTail(prev, name);
      var more := Observe(StateAfter(prev), last).1;
      ForAppend(Sent(prev), more, name);
      if last.name == name {
        PagedStep(Of(prev, name), For(Sent(prev), name), name, last.ok);
      } else {
        assert Of(prev, name) + [] == Of(prev, name);
        assert For(Sent(prev), name) + [] == For(Sent(prev), name);
      }
    }
  }

  lemma {:induction false} OneMoreEvent(es: seq<Event>, e: Event)
    ensures StateAfter(es + [e]) == Observe(StateAfter(es), e).0
    ensures Sent(es + [e]) == Sent(es) + Observe(StateAfter(es), e).1
    ensures Of(es + [e], e.name) == Of(es, e.name) + [e.ok]
  {
    assert (es + [e])[..|es|] == es;
  }

  lemma {:induction false} OneMoreFailure(obs: seq<bool>)
    ensures Tail(obs + [false]) == Tail(obs) + 1
  {
    assert (obs + [false])[..|obs|] == obs;
  }

  /** The poller's counters, with the history they stand for. */
  class Watch {
    var failStreaks: map<string, nat>
    ghost var log: seq<Event>
    ghost var sent: seq<Message>

    /** The counters and the messages are those of the whole history, so all that is proved of it holds. */
    ghost predicate Valid()
      reads this
    {
      failStreaks == StateAfter(log) && sent == Sent(log)
    }

    constructor ()
      ensures Valid() && log == []
    {
      failStreaks, log, sent := map[], [], [];
    }

    /** Pages exactly when this subsystem's own current failure run reaches three. */
    method SubsystemFailed(name: string) returns (page: bool)
      requires Valid()
      modifies this
      ensures Valid() && log == old(log) + [Event(name, false)]
      ensures page <==> Tail(Of(log, name)) == 3
      ensures sent == old(sent) + (if page then [Page(name)] else [])
    {
      hide Of, Tail, Sent, StateAfter;
      StreakIsTail(log, name);
      OneMoreEvent(log, Event(name, false));
      OneMoreFailure(Of(log, name));
      failStreaks := failStreaks[name := Streak(failStreaks, name) + 1];
      page := failStreaks[name] == FAIL_ALERT_AT;
      log, sent := log + [Event(name, false)], sent + (if page then [Page(name)] else []);
    }

    /** Sends a recovery exactly when the failure run it ends was paged. */
    method SubsystemOk(name: string) returns (recovered: bool)
      requires Valid()
      modifies this
      ensures Valid() && log == old(log) + [Event(name, true)]
      ensures recovered <==> Tail(Of(old(log), name)) >= 3
      ensures sent == old(sent) + (if recovered then [Recovery(name)] else [])
    {
      hide Of, Tail, Sent, StateAfter;
      StreakIsTail(log, name);
      OneMoreEvent(log, Event(name, true));
      recovered := Streak(failStreaks, name) >= FAIL_ALERT_AT;
      log, sent := log + [Event(name, true)], sent + (if recovered then [Recovery(name)] else []);
      failStreaks := failStreaks[name := 0];
    }
  }

  // ---------------------------------------------------------------- the throttled alarms

  /** One look at the sponsor's balance or at the backlog. */
  datatype Look = Look(now: int, bad: bool)

  datatype Notice = Silent | Alarm | AllClear

  /** 0 stands for "no alarm outstanding". */
  function Throttle(last: int, l: Look, interval: int): (int, Notice) {
    if l.bad then (if l.now - last > interval then (l.now, Alarm) else (last, Silent))
    else if last != 0 then (0, AllClear) else (last, Silent)
  }

  function LastAfter(ls: seq<Look>, interval: int): int {
    if ls == [] then 0 else Throttle(LastAfter(ls[..|ls| - 1], interval), ls[|ls| - 1], interval).0
  }

  /** The notice sent at each look. */
  function Notices(ls: seq<Look>, interval: int): (ns: seq<Notice>)
    ensures |ns| == |ls|
  {
    if ls == [] then []
    else Notices(ls[..|ls| - 1], interval)
         + [Throttle(LastAfter(ls[..|ls| - 1], interval), ls[|ls| - 1], interval).1]
  }

  /** Looks in time order, on a clock that has left zero behind. */
  predicate Timed(ls: seq<Look>) {
    && (forall i :: 0 <= i < |ls| ==> ls[i].now > 0)
    && forall i, j :: 0 <= i < j < |ls| ==> ls[i].now <= ls[j].now
  }

  lemma {:induction false} NoticeAt(ls: seq<Look>, interval: int, i: nat)
    requires i < |ls|
    ensures Notices(ls, interval)[i] == Throttle(LastAfter(ls[..i], interval), ls[i], interval).1
    ensures LastAfter(ls[..i + 1], interval) == Throttle(LastAfter(ls[..i], interval), ls[i], interval).0
    decreases |ls|
  {
    var n := |ls| - 1;
    assert ls[..i + 1][..i] == ls[..i];
    if i < n {
      NoticeAt(ls[..n], interval, i);
      assert ls[..n][..i] == ls[..i];
    }
  }

  /** Alarm i is the latest before k, and no all-clear has come after it. */
  predicate Outstanding(ns: seq<Notice>, i: nat, k: nat) {
    i < k <= |ns| && ns[i].Alarm? && forall j :: i < j < k ==> !ns[j].AllClear? && !ns[j].Alarm?
  }

  lemma {:induction false} OneOutstanding(ns: seq<Notice>, i: nat, j: nat, k: nat)
    requires Outstanding(ns, i, k) && Outstanding(ns, j, k)
    ensures i == j
  {
    assert ns[i].Alarm? && ns[j].Alarm?;
  }

  /** The state is the time of the outstanding alarm, and 0 when there is none. */
  ghost predicate LastIs(ls: seq<Look>, ns: seq<Notice>, k: nat, last: int)
    requires |ns| == |ls|
  {
    if last == 0 then forall i: nat :: !Outstanding(ns, i, k)
    else exists i: nat :: Outstanding(ns, i, k) && ls[i].now == last
  }

  lemma {:induction false} LastStep(ls: seq<Look>, ns: seq<Notice>, k: nat, prev: int, interval: int)
    requires |ns| == |ls| && 0 < k <= |ls| && ls[k - 1].now > 0 && LastIs(ls, ns, k - 1, prev)
    requires ns[k - 1] == Throttle(prev, ls[k - 1], interval).1
    ensures LastIs(ls, ns, k, Throttle(prev, ls[k - 1], interval).0)
  {
    match ns[k - 1]
    case Alarm =>
      assert Outstanding(ns, k - 1, k);
    case AllClear =>
    case Silent =>
      forall i: nat ensures Outstanding(ns, i, k) <==> Outstanding(ns, i, k - 1) {}
  }

  lemma {:induction false} LastMeans(ls: seq<Look>, interval: int, k: nat)
    requires Timed(ls) && k <= |ls|
    ensures LastIs(ls, Notices(ls, interval), k, LastAfter(ls[..k], interval))
    decreases k
  {
    var ns := Notices(ls, interval);
    if k == 0 {
      assert ls[..0] == [];
    } else {
      hide LastIs, LastAfter, Notices, Throttle;
      LastMeans(ls, interval, k - 1);
      NoticeAt(ls, interval, k - 1);
      LastStep(ls, ns, k, LastAfter(ls[..k - 1], interval), interval);
    }
  }

  /**
   * When each notice is sent. An all-clear: exactly at the first good look after an alarm that is
   * still outstanding. An alarm: at a bad look more than the interval after the outstanding one, or,
   * with none outstanding, at once (on a clock already past the interval).
   */
  lemma {:induction false} NoticesExactly(ls: seq<Look>, interval: int, k: nat)
    requires Timed(ls) && k < |ls|
    ensures var ns := Notices(ls, interval);
            && (ns[k].AllClear? <==> !ls[k].bad && exists i: nat :: Outstanding(ns, i, k))
            && (ns[k].Alarm? <==>
                  && ls[k].bad
                  && (forall i: nat :: Outstanding(ns, i, k) ==> ls[k].now - ls[i].now > interval)
                  && ((forall i: nat :: !Outstanding(ns, i, k)) ==> ls[k].now > interval))
  {
    hide LastAfter, Notices;
    var ns := Notices(ls, interval);
    LastMeans(ls, interval, k);
    NoticeAt(ls, interval, k);
    if i: nat :| Outstanding(ns, i, k) {
      forall j: nat | Outstanding(ns, j, k) ensures j == i {
        OneOutstanding(ns, i, j, k);
      }
    }
  }

  lemma {:induction false} OneMoreLook(ls: seq<Look>, l: Look, interval: int)
    ensures LastAfter(ls + [l], interval) == Throttle(LastAfter(ls, interval), l, interval).0
    ensures Notices(ls + [l], interval) ==
            Notices(ls, interval) + [Throttle(LastAfter(ls, interval), l, interval).1]
  {
    assert (ls + [l])[..|ls|] == ls;
  }

  /** A throttled alarm, with the looks it has taken. */
  class Alarmed {
    const interval: int
    var lastAlertAt: int
    ghost var looks: seq<Look>

    ghost predicate Valid()
      reads this
    {
      lastAlertAt == LastAfter(looks, interval)
    }

    constructor (interval: int)
      ensures Valid() && this.interval == interval && looks == []
    {
      this.interval := interval;
      lastAlertAt, looks := 0, [];
    }

    /** One look; when it falls in time order, what it sends follows from the alarms still outstanding. */
    method Check(now: int, bad: bool) returns (sent: Notice)
      requires Valid()
      modifies this
      ensures Valid() && looks == old(looks) + [Look(now, bad)]
      ensures Notices(looks, interval) == Notices(old(looks), interval) + [sent]
      ensures Timed(looks) ==>
                var ns, k := Notices(looks, interval), |old(looks)|;
                && (sent.AllClear? <==> !bad && exists i: nat :: Outstanding(ns, i, k))
                && (sent.Alarm? <==>
                      && bad
                      && (forall i: nat :: Outstanding(ns, i, k) ==> now - looks[i].now > interval)
                      && ((forall i: nat :: !Outstanding(ns, i, k)) ==> now > interval))
    {
      hide LastAfter, Notices, Outstanding;
      OneMoreLook(looks, Look(now, bad), interval);
      sent := Silent;
      if bad {
        if now - lastAlertAt > interval {
          lastAlertAt := now;
          sent := Alarm;
        }
      } else if lastAlertAt != 0 {
        lastAlertAt := 0;
        sent := AllClear;
      }
      looks := looks + [Look(now, bad)];
      if Timed(looks) {
        NoticesExactly(looks, interval, |looks| - 1);
      }
    }
  }

  /** Two alarms with no all-clear in between are more than the interval apart. */
  lemma {:induction false} AlarmsFarApart(ls: seq<Look>, interval: int, i: nat, k: nat)
    requires Timed(ls) && interval >= 0 && i < k < |ls|
    requires var ns := Notices(ls, interval);
             ns[i].Alarm? && ns[k].Alarm? && forall j :: i < j < k ==> !ns[j].AllClear?
    ensures ls[k].now - ls[i].now > interval
    decreases k - i
  {
    hide Notices;
    var ns := Notices(ls, interval);
    if j :| i < j < k && ns[j].Alarm? {
      AlarmsFarApart(ls, interval, j, k);
    } else {
      assert Outstanding(ns, i, k);
      NoticesExactly(ls, interval, k);
    }
  }

  function Alarms(ns: seq<Notice>): nat {
    if ns == [] then 0 else Alarms(ns[..|ns| - 1]) + (if ns[|ns| - 1].Alarm? then 1 else 0)
  }

  /** A stretch without an all-clear sends at most one alarm per interval, and one more. */
  lemma {:induction false} AlarmsInStretch(ls: seq<Look>, interval: int, a: nat, b: nat)
    requires Timed(ls) && interval > 0 && a < b <= |ls|
    requires forall j :: a <= j < b ==> !Notices(ls, interval)[j].AllClear?
    ensures Alarms(Notices(ls, interval)[a..b]) <= 1 + (ls[b - 1].now - ls[a].now) / interval
  {
    hide Notices;
    LastAlarmBound(ls, interval, a, b);
  }

  /** The n alarms from a to b end with alarm k, and n - 1 intervals have passed by then. */
  ghost predicate LastOfStretch(ls: seq<Look>, ns: seq<Notice>, a: nat, b: nat, k: nat, n: nat, interval: int)
    requires |ns| == |ls| && b <= |ls|
  {
    && a <= k < b && ns[k].Alarm? && (forall j :: k < j < b ==> !ns[j].Alarm?)
    && (n - 1) * interval <= ls[k].now - ls[a].now
  }

  /** The alarms of a stretch, against the time of the last of them. */
  lemma {:induction false} LastAlarmBound(ls: seq<Look>, interval: int, a: nat, b: nat)
    requires Timed(ls) && interval > 0 && a < b <= |ls|
    requires forall j :: a <= j < b ==> !Notices(ls, interval)[j].AllClear?
    ensures var n := Alarms(Notices(ls, interval)[a..b]);
            n == 0 || exists k: nat :: LastOfStretch(ls, Notices(ls, interval), a, b, k, n, interval)
    ensures Alarms(Notices(ls, interval)[a..b]) <= 1 + (ls[b - 1].now - ls[a].now) / interval
    decreases b - a
  {
    hide Notices;
    var ns := Notices(ls, interval);
    var n := Alarms(ns[a..b]);
    var front := ns[a..b - 1];
    assert ns[a..b][..b - a - 1] == front;
    if b - 1 == a {
      assert front == [];
    } else {
      LastAlarmBound(ls, interval, a, b - 1);
    }
    if ns[b - 1].Alarm? {
      if n > 1 {
        var k: nat :| LastOfStretch(ls, ns, a, b - 1, k, n - 1, interval);
        AlarmsFarApart(ls, interval, k, b - 1);
        assert (n - 1) * interval == (n - 2) * interval + interval;
      }
      assert LastOfStretch(ls, ns, a, b, b - 1, n, interval);
    } else if n > 0 {
      var k: nat :| LastOfStretch(ls, ns, a, b - 1, k, n, interval);
      assert LastOfStretch(ls, ns, a, b, k, n, interval);
    }
    if n > 0 {
      var k: nat :| LastOfStretch(ls, ns, a, b, k, n, interval);
      DivBound(n - 1, interval, ls[b - 1].now - ls[a].now);
    } else {
      DivBound(0, interval, ls[b - 1].now - ls[a].now);
    }
  }

  lemma {:induction false} DivBound(n: int, d: int, t: int)
    requires d > 0 && n * d <= t
    ensures n <= t / d
  {
    assert t == (t / d) * d + t % d;
    if t / d + 1 <= n {
      MulLe(t / d + 1, n, d);
    }
  }

  lemma {:induction false} MulLe(a: int, b: int, d: int)
    requires d > 0 && a <= b
    ensures a * d <= b * d
  {
    assert (b - a) * d >= 0;
  }
}
