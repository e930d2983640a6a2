/** The alarm scheduler: the tick counter and the list of registered alarms, which
    the tick routine edits while it walks it. */
module AlarmScheduler {
  import opened Words
  import opened AlarmTime
  import opened LinkedList

  datatype Status = Ok | EINVAL | ENOTSUP

  ghost function Items(nodes: seq<Node<Alarm>>): (s: seq<Alarm>)
    reads nodes
    ensures |s| == |nodes| && forall i :: 0 <= i < |nodes| ==> s[i] == nodes[i].item
  {
    if nodes == [] then [] else Items(nodes[..|nodes| - 1]) + [nodes[|nodes| - 1].item]
  }

  /** The entries that survive a tick: all but those due whose callback says 0. */
  ghost function Survivors(nodes: seq<Node<Alarm>>, alarms: seq<Alarm>, now: u32, reply: Reply): seq<Node<Alarm>>
    requires |nodes| == |alarms|
  {
    if nodes == [] then []
    else
      (if Due(alarms[0], now) && reply(alarms[0].id) == 0 then [] else [nodes[0]]) +
      Survivors(nodes[1..], alarms[1..], now, reply)
  }

  /** The survivors keep their order: those of two stretches of the list in a row are
      those of each. */
  lemma {:induction false} SurvivorsConcat(m: seq<Node<Alarm>>, n: seq<Node<Alarm>>, a: seq<Alarm>, b: seq<Alarm>,
                                           now: u32, reply: Reply)
    requires |m| == |a| && |n| == |b|
    ensures Survivors(m + n, a + b, now, reply) == Survivors(m, a, now, reply) + Survivors(n, b, now, reply)
    decreases |a|
  {
    if m == [] {
      assert m + n == n && a + b == b;
    } else {
      assert (m + n)[0] == m[0] && (m + n)[1..] == m[1..] + n;
      assert (a + b)[0] == a[0] && (a + b)[1..] == a[1..] + b;
      SurvivorsConcat(m[1..], n, a[1..], b, now, reply);
      var first := if Due(a[0], now) && reply(a[0].id) == 0 then [] else [m[0]];
      assert first + (Survivors(m[1..], a[1..], now, reply) + Survivors(n, b, now, reply))
          == first + Survivors(m[1..], a[1..], now, reply) + Survivors(n, b, now, reply);
    }
  }

  /** The list in the middle of a tick that has visited everything before
      position `k`. */
  datatype Progress = Progress(entries: seq<Node<Alarm>>, items: seq<Alarm>, calls: seq<nat>, k: nat)
  {
    /** The visit of position `k`. */
    ghost function Next(now: u32, reply: Reply): Progress {
      if |entries| != |items| || k >= |items| then this
      else
        var calls' := if Due(items[k], now) then calls + [items[k].id] else calls;
        match Step(items[k], now, reply(items[k].id))
        case None => Progress(Without(entries, k), Without(items, k), calls', k)
        case Some(b) => Progress(entries, items[k := b], calls', k + 1)
    }

    /** Finishing with the positions from `k` on gives the effect of a whole tick
        on `nodes` and their data `before`. */
    ghost predicate Leads(nodes: seq<Node<Alarm>>, before: seq<Alarm>, now: u32, reply: Reply)
      requires |nodes| == |before|
    {
      && |entries| == |items| && k <= |items|
      && calls + TickCalls(items[k..], now) == TickCalls(before, now)
      && items[..k] + TickAll(items[k..], now, reply) == TickAll(before, now, reply)
      && entries[..k] + Survivors(entries[k..], items[k..], now, reply) == Survivors(nodes, before, now, reply)
    }

    lemma NextLeads(nodes: seq<Node<Alarm>>, before: seq<Alarm>, now: u32, reply: Reply)
      requires |nodes| == |before| && Leads(nodes, before, now, reply) && k < |items|
      ensures Next(now, reply).Leads(nodes, before, now, reply)
    {
      NextCalls(calls, items, k, now, reply);
      NextItems(items, k, now, reply);
      NextEntries(entries, items, k, now, reply);
    }
  }

  lemma NextCalls(calls: seq<nat>, items: seq<Alarm>, k: nat, now: u32, reply: Reply)
    requires k < |items|
    ensures var all := calls + TickCalls(items[k..], now);
            var calls' := if Due(items[k], now) then calls + [items[k].id] else calls;
            match Step(items[k], now, reply(items[k].id))
            case None => calls' + TickCalls(Without(items, k)[k..], now) == all
            case Some(b) => calls' + TickCalls(items[k := b][k + 1..], now) == all
  {
    assert items[k..][1..] == items[k + 1..];
    match Step(items[k], now, reply(items[k].id))
    case None => Cut(items, k);
    case Some(b) => Store(items, k, b);
  }

  lemma NextItems(items: seq<Alarm>, k: nat, now: u32, reply: Reply)
    requires k < |items|
    ensures var all := items[..k] + TickAll(items[k..], now, reply);
            match Step(items[k], now, reply(items[k].id))
            case None => Without(items, k)[..k] + TickAll(Without(items, k)[k..], now, reply) == all
            case Some(b) => items[k := b][..k + 1] + TickAll(items[k := b][k + 1..], now, reply) == all
  {
    assert items[k..][1..] == items[k + 1..];
    match Step(items[k], now, reply(items[k].id))
    case None => Cut(items, k);
    case Some(b) => Store(items, k, b);
  }

  lemma NextEntries(entries: seq<Node<Alarm>>, items: seq<Alarm>, k: nat, now: u32, reply: Reply)
    requires k < |items| == |entries|
    ensures var all := entries[..k] + Survivors(entries[k..], items[k..], now, reply);
            match Step(items[k], now, reply(items[k].id))
            case None =>
              Without(entries, k)[..k] + Survivors(Without(entries, k)[k..], Without(items, k)[k..], now, reply) == all
            case Some(b) =>
              entries[..k + 1] + Survivors(entries[k + 1..], items[k := b][k + 1..], now, reply) == all
  {
    assert items[k..][1..] == items[k + 1..] && entries[k..][1..] == entries[k + 1..];
    match Step(items[k], now, reply(items[k].id))
    case None =>
      Cut(items, k);
      Cut(entries, k);
    case Some(b) =>
      Store(items, k, b);
      assert entries[..k + 1] == entries[..k] + [entries[k]];
  }

  lemma Cut<T>(s: seq<T>, k: nat)
    requires k < |s|
    ensures Without(s, k)[..k] == s[..k] && Without(s, k)[k..] == s[k + 1..]
  {
  }

  lemma Store<T>(s: seq<T>, k: nat, x: T)
    requires k < |s|
    ensures s[k := x][..k + 1] == s[..k] + [x] && s[k := x][k + 1..] == s[k + 1..]
  {
  }

  /** The successive states of a tick. */
  ghost predicate Visits(trace: seq<Progress>, now: u32, reply: Reply) {
    && trace != []
    && forall i :: 0 < i < |trace| ==> trace[i] == trace[i - 1].Next(now, reply)
  }

  lemma {:induction false} VisitsLead(trace: seq<Progress>, j: nat, now: u32, reply: Reply)
    requires Visits(trace, now, reply) && j < |trace|
    requires |trace[0].entries| == |trace[0].items| && trace[0].calls == [] && trace[0].k == 0
    ensures trace[j].Leads(trace[0].entries, trace[0].items, now, reply)
  {
    if j > 0 {
      VisitsLead(trace, j - 1, now, reply);
      if trace[j - 1].k < |trace[j - 1].items| {
        trace[j - 1].NextLeads(trace[0].entries, trace[0].items, now, reply);
      }
    }
  }

  ghost function Extend(trace: seq<Progress>, q: Progress, now: u32, reply: Reply): (r: seq<Progress>)
    requires Visits(trace, now, reply) && q == trace[|trace| - 1].Next(now, reply)
    ensures Visits(r, now, reply) && r[0] == trace[0] && r[|r| - 1] == q
  {
    trace + [q]
  }

  /** Visits starting from an untouched list until none is left have the tick's
      effect. */
  lemma VisitsDone(trace: seq<Progress>, p: Progress, q: Progress, now: u32, reply: Reply)
    requires Visits(trace, now, reply) && p == trace[0] && q == trace[|trace| - 1]
    requires |p.entries| == |p.items| && p.calls == [] && p.k == 0
    requires q.k >= |q.items|
    ensures q.calls == TickCalls(p.items, now)
    ensures q.items == TickAll(p.items, now, reply)
    ensures q.entries == Survivors(p.entries, p.items, now, reply)
  {
    VisitsLead(trace, |trace| - 1, now, reply);
  }

  /** Running `alarms` for another `k` ticks completes the calls so far to `all`. */
  ghost predicate Rest(calls: seq<Call>, alarms: seq<Alarm>, e: nat, k: nat, answer: Answer, all: seq<Call>) {
    calls + RunCalls(alarms, e, k, answer) == all
  }

  lemma RunRest(calls: seq<Call>, alarms: seq<Alarm>, e: nat, k: nat, answer: Answer, all: seq<Call>)
    ensures calls == [] && all == RunCalls(alarms, e, k, answer) ==> Rest(calls, alarms, e, k, answer, all)
    ensures k == 0 && Rest(calls, alarms, e, k, answer, all) ==> calls == all
  {
  }

  class Scheduler {
    const alarms: List<Alarm>
    var nticks: u32
    var tickRate: u32

    ghost predicate Valid()
      reads this, alarms, alarms.repr
    {
      alarms.Valid()
    }

    /** The registered alarms, first one first. */
    ghost function Registered(): seq<Alarm>
      requires Valid()
      reads this, alarms, alarms.repr
    {
      Items(alarms.Entries())
    }

    constructor (rate: u32)
      ensures Valid() && fresh(alarms) && fresh(alarms.repr)
      ensures Registered() == [] && nticks == 0 && tickRate == rate
    {
      alarms := new List(Alarm(0, false, 0));
      nticks, tickRate := 0, rate;
    }

    /** Register an alarm to be called `delay` ticks from now. */
    method StartAlarm(entry: Node?<Alarm>, delay: u32, id: nat) returns (status: Status)
      requires Valid()
      requires entry != null ==> entry !in alarms.circle
      modifies alarms`circle, alarms`repr, alarms.repr, entry
      ensures Valid()
      ensures status == if tickRate == 0 then ENOTSUP else if entry == null then EINVAL else Ok
      ensures status == Ok ==>
                && alarms.Entries() == [entry] + old(alarms.Entries())
                && alarms.repr == old(alarms.repr) + {entry}
                && Registered() == [Start(id, delay, nticks)] + old(Registered())
      ensures status != Ok ==> alarms.circle == old(alarms.circle) && Registered() == old(Registered())
    {
      if tickRate == 0 {
        return ENOTSUP;
      }
      if entry == null {
        return EINVAL;
      }
      var time := (delay + nticks + 1) % WORD;
      entry.item := Alarm(time, time < nticks, id);
      Register(entry);
      status := Ok;
    }

    /** Put an alarm whose data are set in front of the list. */
    method Register(entry: Node<Alarm>)
      requires Valid() && entry !in alarms.circle
      modifies alarms`circle, alarms`repr, alarms.repr, entry
      ensures Valid() && alarms.repr == old(alarms.repr) + {entry}
      ensures alarms.Entries() == [entry] + old(alarms.Entries())
      ensures Registered() == [old(entry.item)] + old(Registered())
    {
      ghost var nodes, before := alarms.Entries(), Registered();
      alarms.Insert(entry);
      assert alarms.circle[1] == entry;
      assert forall i :: 0 <= i < |nodes| ==> alarms.circle[i + 2] == nodes[i];
      assert forall i :: 0 <= i < |nodes| ==> nodes[i].item == before[i];
    }

    /** Take an alarm off the list; stopping a stopped alarm changes nothing. */
    method StopAlarm(entry: Node<Alarm>)
      requires Valid() && entry != alarms.head
      requires entry in alarms.circle || entry.Detached()
      modifies alarms`circle, alarms.repr, entry
      ensures Valid() && entry.Detached() && entry !in alarms.circle
      ensures forall x :: x in old(alarms.circle) ==> x.item == old(x.item)
      ensures entry !in old(alarms.circle) ==> alarms.circle == old(alarms.circle)
      ensures entry in old(alarms.circle) ==>
                exists k :: 0 < k < old(|alarms.circle|) && old(alarms.circle)[k] == entry
                            && alarms.circle == Without(old(alarms.circle), k)
    {
      ghost var k := alarms.Remove(entry);
    }

    /** The work of one tick on the alarm at position `k` of the circle. */
    method Visit(alarm: Node<Alarm>, reply: Reply, ghost k: nat) returns (called: bool)
      requires Valid() && 0 < k < |alarms.circle| && alarms.circle[k] == alarm
      modifies alarms`circle, alarms.repr
      ensures Valid()
      ensures called == Due(old(alarm.item), nticks)
      ensures match Step(old(alarm.item), nticks, reply(old(alarm.item.id)))
              case None => alarms.circle == Without(old(alarms.circle), k) && alarm.Detached()
              case Some(b) => alarms.circle == old(alarms.circle) && alarm.item == b
      ensures forall x :: x in old(alarms.circle) && x != alarm ==> x.item == old(x.item)
    {
      called := false;
      if alarm.item.rollover && nticks == 0 {
        alarm.item := alarm.item.(rollover := false);
      }
      if alarm.item.time <= nticks && !alarm.item.rollover {
        called := true;
        var nextCallback := reply(alarm.item.id);
        if nextCallback == 0 {
          StopAlarm(alarm);
        } else {
          alarm.item := alarm.item.(time := (alarm.item.time + nextCallback) % WORD);
          if alarm.item.time < nticks {
            alarm.item := alarm.item.(rollover := true);
          }
        }
      }
    }

    /** The same in terms of the list: the alarm at `k` is stepped or taken out,
        every other alarm keeps its place and its data. */
    method VisitAt(alarm: Node<Alarm>, reply: Reply, ghost k: nat) returns (next: Node<Alarm>, called: bool)
      requires Valid() && k < |alarms.Entries()| && alarms.Entries()[k] == alarm
      modifies alarms`circle, alarms.repr
      ensures Valid()
      ensures next == if k + 1 < |old(alarms.Entries())| then old(alarms.Entries())[k + 1] else alarms.head
      ensures called == Due(old(Registered())[k], nticks)
      ensures match Step(old(Registered())[k], nticks, reply(old(Registered())[k].id))
              case None =>
                && alarms.Entries() == Without(old(alarms.Entries()), k)
                && Registered() == Without(old(Registered()), k)
              case Some(b) =>
                && alarms.Entries() == old(alarms.Entries())
                && Registered() == old(Registered())[k := b]
    {
      ghost var circle := alarms.circle;
      ghost var before := Registered();
      assert circle[k + 1] == alarm && before[k] == alarm.item;
      next := alarm.next;
      called := Visit(alarm, reply, k + 1);
      assert forall i :: 0 <= i < |before| && i != k ==> circle[i + 1].item == before[i];
    }

    /** The tick has reached `alarm` with the calls made so far, as `p` says. */
    ghost predicate Reached(alarm: Node<Alarm>, calls: seq<nat>, p: Progress)
      reads this, alarms, alarms.repr
    {
      && Valid() && p == Progress(alarms.Entries(), Registered(), calls, p.k) && p.k <= |p.entries|
      && alarm == (if p.k < |p.entries| then p.entries[p.k] else alarms.head)
    }

    /** One turn of the tick's loop. */
    method VisitNext(alarm: Node<Alarm>, reply: Reply, calls: seq<nat>, ghost p: Progress)
      returns (next: Node<Alarm>, calls': seq<nat>, ghost q: Progress)
      requires Reached(alarm, calls, p) && alarm != alarms.head
      modifies alarms`circle, alarms.repr
      ensures alarms.repr == old(alarms.repr)
      ensures Reached(next, calls', q) && q == p.Next(nticks, reply)
      ensures |q.entries| - q.k < |p.entries| - p.k
    {
      var id := alarm.item.id;
      assert id == p.items[p.k].id;
      var called;
      next, called := VisitAt(alarm, reply, p.k);
      calls' := if called then calls + [id] else calls;
      q := p.Next(nticks, reply);
    }

    /** Visit the alarms from `alarm` on, once each and in order. */
    method Walk(alarm: Node<Alarm>, reply: Reply, ghost p: Progress)
      returns (calls: seq<nat>, ghost trace: seq<Progress>)
      requires Reached(alarm, [], p)
      modifies alarms`circle, alarms.repr
      ensures Visits(trace, nticks, reply) && trace[0] == p
      ensures var q := trace[|trace| - 1]; Reached(alarms.head, calls, q) && q.k >= |q.items|
    {
      trace, calls := [p], [];
      var a := alarm;
      ghost var q := p;
      while a != alarms.head
        invariant alarms.repr == old(alarms.repr)
        invariant Reached(a, calls, q)
        invariant trace != [] && trace[0] == p && trace[|trace| - 1] == q && Visits(trace, nticks, reply)
        decreases |q.entries| - q.k
      {
        a, calls, q := VisitNext(a, reply, calls, q);
        trace := Extend(trace, q, nticks, reply);
      }
    }

    /** Visit every registered alarm at the present counter value. */
    method VisitAll(reply: Reply) returns (calls: seq<nat>)
      requires Valid()
      modifies alarms`circle, alarms.repr
      ensures Valid() && alarms.repr == old(alarms.repr)
      ensures Registered() == TickAll(old(Registered()), nticks, reply)
      ensures calls == TickCalls(old(Registered()), nticks)
      ensures alarms.Entries() == Survivors(old(alarms.Entries()), old(Registered()), nticks, reply)
    {
      ghost var start := Progress(alarms.Entries(), Registered(), [], 0);
      ghost var trace;
      calls, trace := Walk(alarms.head.next, reply, start);
      VisitsDone(trace, start, trace[|trace| - 1], nticks, reply);
    }

    /** Advance the counter and visit every registered alarm. */
    method Tick(reply: Reply) returns (calls: seq<nat>)
      requires Valid()
      modifies this`nticks, alarms`circle, alarms.repr
      ensures Valid()
      ensures nticks == (old(nticks) + 1) % WORD
      ensures Registered() == TickAll(old(Registered()), nticks, reply)
      ensures calls == TickCalls(old(Registered()), nticks)
      ensures alarms.Entries() == Survivors(old(alarms.Entries()), old(Registered()), nticks, reply)
    {
      nticks := (nticks + 1) % WORD;
      calls := VisitAll(reply);
    }

    /** The tick after tick `e`, the first of `k` that complete the calls so far
        to `all`. */
    method TickAfter(e: nat, ghost k: nat, answer: Answer, calls: seq<Call>, ghost all: seq<Call>)
      returns (calls': seq<Call>)
      requires Valid() && nticks == e % WORD && k > 0
      requires Rest(calls, Registered(), e, k, answer, all)
      modifies this`nticks, alarms`circle, alarms.repr
      ensures Valid() && nticks == (e + 1) % WORD && alarms.repr == old(alarms.repr)
      ensures Rest(calls', Registered(), e + 1, k - 1, answer, all)
    {
      NextTick(e);
      RunStep(calls, Registered(), e, k, answer);
      var ids := Tick(ReplyAt(answer, e + 1));
      calls' := calls + At(ids, e + 1);
    }

    /** `k` ticks in a row after tick `e`: every call ever made, with its tick. */
    method Run(e: nat, k: nat, answer: Answer) returns (calls: seq<Call>)
      requires Valid() && nticks == e % WORD
      modifies this`nticks, alarms`circle, alarms.repr
      ensures Valid() && nticks == (e + k) % WORD
      ensures calls == RunCalls(old(Registered()), e, k, answer)
    {
      ghost var all := RunCalls(Registered(), e, k, answer);
      calls := [];
      RunRest([], Registered(), e, k, answer, all);
      var tick: nat, left: nat := e, k;
      while left > 0
        invariant tick + left == e + k && Valid() && nticks == tick % WORD && alarms.repr == old(alarms.repr)
        invariant Rest(calls, Registered(), tick, left, answer, all)
      {
        calls := TickAfter(tick, left, answer, calls, all);
        tick, left := tick + 1, left - 1;
      }
      RunRest(calls, Registered(), tick, left, answer, all);
    }

    /** Start an alarm after tick `e` and run for `k` ticks.  Every alarm on the list
        is called at the ticks it would be called at alone, and the new one exactly
        when promised. */
    method StartAndRun(entry: Node<Alarm>, delay: u32, id: nat, e: nat, k: nat, answer: Answer)
      returns (calls: seq<Call>)
      requires Valid() && tickRate > 0 && nticks == e % WORD && entry !in alarms.circle
      requires Distinct([Start(id, delay, nticks)] + Registered())
      modifies this`nticks, alarms`circle, alarms`repr, alarms.repr, entry
      ensures Valid() && nticks == (e + k) % WORD
      ensures StartsExactly(delay, e % WORD) ==> TicksOf(id, calls) == Schedule(id, e + delay + 1, e + k, answer)
      ensures forall other :: other != id ==>
                TicksOf(other, calls) == match Find(old(Registered()), other)
                                         case None => []
                                         case Some(a) => CallTimes(a, e, k, answer)
    {
      ghost var before := Registered();
      var _ := StartAlarm(entry, delay, id);
      calls := Run(e, k, answer);
      RunOfStarted(before, id, delay, e, k, answer);
    }
  }

  /** The calls of a run right after a start, alarm by alarm. */
  lemma RunOfStarted(before: seq<Alarm>, id: nat, delay: u32, e: nat, k: nat, answer: Answer)
    requires Distinct([Start(id, delay, e % WORD)] + before)
    ensures var calls := RunCalls([Start(id, delay, e % WORD)] + before, e, k, answer);
            && (StartsExactly(delay, e % WORD) ==> TicksOf(id, calls) == Schedule(id, e + delay + 1, e + k, answer))
            && forall other :: other != id ==>
                 TicksOf(other, calls) == match Find(before, other)
                                          case None => []
                                          case Some(a) => CallTimes(a, e, k, answer)
  {
    var all := [Start(id, delay, e % WORD)] + before;
    if StartsExactly(delay, e % WORD) {
      StartedAlarmIsExact(before, id, delay, e, k, answer);
    }
    forall other | other != id
      ensures TicksOf(other, RunCalls(all, e, k, answer)) == match Find(before, other)
                                                             case None => []
                                                             case Some(a) => CallTimes(a, e, k, answer)
    {
      RunIsLocal(all, e, k, answer, other);
      assert all[1..] == before;
    }
  }
}
