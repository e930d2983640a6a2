/** The time arithmetic of the alarm scheduler: a 32-bit tick counter and one
    roll-over flag per alarm stand for an unbounded clock. */
module AlarmTime {
  import opened Words

  /** What the scheduler knows of an alarm; `id` stands for its callback and the
      context it is called with. */
  datatype Alarm = Alarm(time: u32, rollover: bool, id: nat)

  /** The period an alarm's callback returns, given the number of ticks since
      reset; 0 stops the alarm. */
  type Answer = (nat, nat) -> u32

  function Start(id: nat, nticks: u32, now: u32): Alarm {
    var time := (nticks + now + 1) % WORD;
    Alarm(time, time < now, id)
  }

  predicate Due(a: Alarm, now: u32) {
    a.time <= now && (!a.rollover || now == 0)
  }

  /** One tick's work on one alarm, `now` being the new counter value. */
  function Step(a: Alarm, now: u32, period: u32): Option<Alarm> {
    if !Due(a, now) then
      Some(a.(rollover := a.rollover && now != 0))
    else if period == 0 then
      None
    else
      var time := (a.time + period) % WORD;
      Some(a.(time := time, rollover := time < now))
  }

  /** The ticks since reset at which an alarm is called during the `k` ticks after
      tick `e`. */
  function CallTimes(a: Alarm, e: nat, k: nat, answer: Answer): seq<nat>
    decreases k
  {
    if k == 0 then []
    else
      var now := (e + 1) % WORD;
      (if Due(a, now) then [e + 1] else []) +
      match Step(a, now, answer(a.id, e + 1))
      case None => []
      case Some(b) => CallTimes(b, e + 1, k - 1, answer)
  }

  /** The promised calls up to tick `last`: first at tick `d`, then each time as
      many ticks later as the callback asked for. */
  function Schedule(id: nat, d: nat, last: nat, answer: Answer): seq<nat>
    decreases last + 1 - d
  {
    if d > last then []
    else [d] + if answer(id, d) == 0 then [] else Schedule(id, d + answer(id, d), last, answer)
  }

  /** The stored time and flag stand for the unbounded deadline `d` at tick `e`:
      the flag is set exactly when the deadline lies past the next wrap.  (One
      state a full wrap ahead, with the counter about to wrap, also behaves.) */
  ghost predicate Tracks(a: Alarm, d: nat, e: nat) {
    && e < d <= e + WORD
    && a.time == d % WORD
    && (if d < e + WORD then a.rollover <==> d / WORD > e / WORD
        else e % WORD == WORD - 1 && !a.rollover)
  }

  /** The delays for which the first call comes when promised. */
  predicate StartsExactly(nticks: u32, now: u32) {
    nticks != WORD - 1 || now == WORD - 1
  }

  lemma NextTick(e: nat)
    ensures (e + 1) % WORD == if e % WORD == WORD - 1 then 0 else e % WORD + 1
    ensures (e + 1) / WORD == if e % WORD == WORD - 1 then e / WORD + 1 else e / WORD
  {
  }

  /** A deadline less than a wrap ahead lies past the next wrap exactly when its
      remainder is below the counter. */
  lemma WrapTest(d: nat, e: nat)
    requires e <= d < e + WORD
    ensures d / WORD > e / WORD <==> d % WORD < e % WORD
  {
  }

  lemma StartTracks(id: nat, nticks: u32, e: nat)
    requires StartsExactly(nticks, e % WORD)
    ensures Tracks(Start(id, nticks, e % WORD), e + nticks + 1, e)
  {
    var d := e + nticks + 1;
    assert (nticks + e % WORD + 1) % WORD == d % WORD;
    if d < e + WORD {
      WrapTest(d, e);
    }
  }

  /** One tick: an alarm is called exactly at its deadline, and afterwards stands
      for the next deadline. */
  lemma StepTracks(a: Alarm, d: nat, e: nat, period: u32)
    requires Tracks(a, d, e)
    ensures Due(a, (e + 1) % WORD) <==> d == e + 1
    ensures match Step(a, (e + 1) % WORD, period)
            case None => d == e + 1 && period == 0
            case Some(b) => b.id == a.id && Tracks(b, if d == e + 1 then d + period else d, e + 1)
  {
    NextTick(e);
    if d != e + 1 && d < e + WORD {
      WrapTest(d, e);
      WrapTest(d, e + 1);
    } else if d == e + 1 && period > 0 {
      assert (a.time + period) % WORD == (d + period) % WORD;
      WrapTest(d + period, e + 1);
    } else if d == e + WORD {
      WrapTest(d, e + 1);
    }
  }

  lemma {:induction false} TracksExact(a: Alarm, d: nat, e: nat, k: nat, answer: Answer)
    requires Tracks(a, d, e)
    ensures CallTimes(a, e, k, answer) == Schedule(a.id, d, e + k, answer)
    decreases k
  {
    if k > 0 {
      var period := answer(a.id, e + 1);
      StepTracks(a, d, e, period);
      match Step(a, (e + 1) % WORD, period)
      case None =>
      case Some(b) =>
        TracksExact(b, if d == e + 1 then d + period else d, e + 1, k - 1, answer);
    }
  }

  /** An alarm started with delay `nticks` is called at exactly the promised ticks,
      through any number of counter wraps, unless the delay is 2^32 - 1 and the
      counter is not about to wrap. */
  lemma AlarmsAreExact(id: nat, nticks: u32, e: nat, answer: Answer)
    ensures StartsExactly(nticks, e % WORD) <==>
            forall k: nat :: CallTimes(Start(id, nticks, e % WORD), e, k, answer)
                             == Schedule(id, e + nticks + 1, e + k, answer)
  {
    var a := Start(id, nticks, e % WORD);
    if StartsExactly(nticks, e % WORD) {
      StartTracks(id, nticks, e);
      forall k: nat
        ensures CallTimes(a, e, k, answer) == Schedule(id, e + nticks + 1, e + k, answer)
      {
        TracksExact(a, e + nticks + 1, e, k, answer);
      }
    } else {
      EarlyCall(id, e, answer);
    }
  }

  /** The remaining case fires on the very next tick instead of 2^32 ticks later. */
  lemma EarlyCall(id: nat, e: nat, answer: Answer)
    requires !StartsExactly(WORD - 1, e % WORD)
    ensures CallTimes(Start(id, WORD - 1, e % WORD), e, 1, answer) == [e + 1]
    ensures Schedule(id, e + WORD, e + 1, answer) == []
  {
    NextTick(e);
    var a := Start(id, WORD - 1, e % WORD);
    assert a.time == e % WORD;
    var rest := match Step(a, (e + 1) % WORD, answer(id, e + 1))
      case None => []
      case Some(b) => CallTimes(b, e + 1, 0, answer);
    assert CallTimes(a, e, 1, answer) == [e + 1] + rest;
  }

  // ----- the whole list ---------------------------------------------------

  /** What the callbacks, by their ids, return during one tick. */
  type Reply = nat -> u32

  /** The alarms that survive the tick to counter value `now`, in order. */
  function TickAll(alarms: seq<Alarm>, now: u32, reply: Reply): seq<Alarm> {
    if alarms == [] then []
    else
      (match Step(alarms[0], now, reply(alarms[0].id))
       case None => []
       case Some(b) => [b]) + TickAll(alarms[1..], now, reply)
  }

  /** The alarms called by that tick, in order. */
  function TickCalls(alarms: seq<Alarm>, now: u32): seq<nat> {
    if alarms == [] then []
    else (if Due(alarms[0], now) then [alarms[0].id] else []) + TickCalls(alarms[1..], now)
  }

  /** A tick treats the alarms one after the other and keeps their order: what it does to
      two lists in a row is what it does to each. */
  lemma {:induction false} TickAllConcat(a: seq<Alarm>, b: seq<Alarm>, now: u32, reply: Reply)
    ensures TickAll(a + b, now, reply) == TickAll(a, now, reply) + TickAll(b, now, reply)
    ensures TickCalls(a + b, now) == TickCalls(a, now) + TickCalls(b, now)
  {
    if a == [] {
      assert a + b == b;
    } else {
      assert a + b == a[..1] + (a[1..] + b) && (a + b)[..1] == a[..1] && (a + b)[1..] == a[1..] + b;
      TickAllConcat(a[1..], b, now, reply);
      TickAllFirst(a, now, reply);
      TickAllFirst(a + b, now, reply);
      Associate(TickAll(a[..1], now, reply), TickAll(a[1..], now, reply), TickAll(b, now, reply));
      Associate(TickCalls(a[..1], now), TickCalls(a[1..], now), TickCalls(b, now));
    }
  }

  lemma Associate<T>(x: seq<T>, y: seq<T>, z: seq<T>)
    ensures x + (y + z) == x + y + z
  {
  }

  /** The first alarm of a list: called if it is due, and kept unless it then asks for
      no further call. */
  lemma TickAllFirst(a: seq<Alarm>, now: u32, reply: Reply)
    requires a != []
    ensures TickAll(a, now, reply) == TickAll(a[..1], now, reply) + TickAll(a[1..], now, reply)
    ensures TickCalls(a, now) == TickCalls(a[..1], now) + TickCalls(a[1..], now)
    ensures TickCalls(a[..1], now) == if Due(a[0], now) then [a[0].id] else []
    ensures |TickAll(a[..1], now, reply)| == if Due(a[0], now) && reply(a[0].id) == 0 then 0 else 1
  {
    assert a[..1][1..] == [];
    assert TickAll(a[..1][1..], now, reply) == [] && TickCalls(a[..1][1..], now) == [];
  }

  /** One call of the callback `id` at tick `tick`. */
  datatype Call = Call(id: nat, tick: nat)

  function At(ids: seq<nat>, tick: nat): seq<Call> {
    seq(|ids|, i requires 0 <= i < |ids| => Call(ids[i], tick))
  }

  function ReplyAt(answer: Answer, tick: nat): Reply {
    (id: nat) => answer(id, tick)
  }

  /** All the calls made during the `k` ticks after tick `e`, in order. */
  function RunCalls(alarms: seq<Alarm>, e: nat, k: nat, answer: Answer): seq<Call>
    decreases k
  {
    if k == 0 then []
    else
      var now := (e + 1) % WORD;
      At(TickCalls(alarms, now), e + 1) +
      RunCalls(TickAll(alarms, now, ReplyAt(answer, e + 1)), e + 1, k - 1, answer)
  }

  lemma RunStep(calls: seq<Call>, alarms: seq<Alarm>, e: nat, k: nat, answer: Answer)
    requires k > 0
    ensures var now := (e + 1) % WORD;
            calls + RunCalls(alarms, e, k, answer) ==
            calls + At(TickCalls(alarms, now), e + 1) +
            RunCalls(TickAll(alarms, now, ReplyAt(answer, e + 1)), e + 1, k - 1, answer)
  {
  }

  /** The ticks at which the callback `id` was called. */
  function TicksOf(id: nat, calls: seq<Call>): seq<nat> {
    if calls == [] then []
    else (if calls[0].id == id then [calls[0].tick] else []) + TicksOf(id, calls[1..])
  }

  function Find(alarms: seq<Alarm>, id: nat): Option<Alarm> {
    if alarms == [] then None
    else if alarms[0].id == id then Some(alarms[0])
    else Find(alarms[1..], id)
  }

  ghost predicate Distinct(alarms: seq<Alarm>) {
    forall i, j :: 0 <= i < j < |alarms| ==> alarms[i].id != alarms[j].id
  }

  lemma TicksOfCons(id: nat, c: Call, rest: seq<Call>)
    ensures TicksOf(id, [c] + rest) == (if c.id == id then [c.tick] else []) + TicksOf(id, rest)
  {
    assert ([c] + rest)[0] == c && ([c] + rest)[1..] == rest;
  }

  lemma {:induction false} TicksOfConcat(id: nat, a: seq<Call>, b: seq<Call>)
    ensures TicksOf(id, a + b) == TicksOf(id, a) + TicksOf(id, b)
  {
    if a == [] {
      assert a + b == b;
    } else {
      var c, tail := a[0], a[1..];
      assert a == [c] + tail && a + b == [c] + (tail + b);
      TicksOfConcat(id, tail, b);
      TicksOfCons(id, c, tail);
      TicksOfCons(id, c, tail + b);
    }
  }

  lemma {:induction false} FindNone(alarms: seq<Alarm>, id: nat)
    ensures Find(alarms, id).None? <==> forall i :: 0 <= i < |alarms| ==> alarms[i].id != id
    ensures Find(alarms, id).Some? ==> Find(alarms, id).value.id == id
  {
    if alarms != [] {
      FindNone(alarms[1..], id);
    }
  }

  /** A tick removes alarms and never adds one. */
  lemma {:induction false} TickAllIds(alarms: seq<Alarm>, now: u32, reply: Reply, id: nat)
    requires Find(alarms, id).None?
    ensures Find(TickAll(alarms, now, reply), id).None?
  {
    if alarms != [] {
      TickAllIds(alarms[1..], now, reply, id);
      TickAllSplits(alarms, now, reply);
    }
  }

  lemma TickAllSplits(alarms: seq<Alarm>, now: u32, reply: Reply)
    requires alarms != []
    ensures var rest, all := TickAll(alarms[1..], now, reply), TickAll(alarms, now, reply);
            match Step(alarms[0], now, reply(alarms[0].id))
            case None => all == rest
            case Some(b) => |all| == |rest| + 1 && all[0] == b && all[1..] == rest
  {
  }

  lemma {:induction false} TickAllDistinct(alarms: seq<Alarm>, now: u32, reply: Reply)
    requires Distinct(alarms)
    ensures Distinct(TickAll(alarms, now, reply))
  {
    if alarms != [] {
      var tail, id := alarms[1..], alarms[0].id;
      TickAllDistinct(tail, now, reply);
      FindNone(tail, id);
      TickAllIds(tail, now, reply, id);
      FindNone(TickAll(tail, now, reply), id);
      TickAllSplits(alarms, now, reply);
    }
  }

  /** A tick works on each alarm as if it were alone: it is stepped, and kept
      unless its callback said 0. */
  lemma {:induction false} TickIsLocal(alarms: seq<Alarm>, now: u32, reply: Reply, id: nat)
    requires Distinct(alarms)
    ensures Find(TickAll(alarms, now, reply), id) ==
            match Find(alarms, id)
            case None => None
            case Some(a) => Step(a, now, reply(id))
  {
    if alarms != [] {
      TickIsLocal(alarms[1..], now, reply, id);
      FindNone(alarms[1..], alarms[0].id);
      TickAllIds(alarms[1..], now, reply, alarms[0].id);
      TickAllSplits(alarms, now, reply);
    }
  }

  /** A tick calls each alarm once if it is due and not at all otherwise. */
  lemma {:induction false} CallsAreLocal(alarms: seq<Alarm>, now: u32, id: nat, tick: nat)
    requires Distinct(alarms)
    ensures TicksOf(id, At(TickCalls(alarms, now), tick)) ==
            match Find(alarms, id)
            case None => []
            case Some(a) => if Due(a, now) then [tick] else []
  {
    if alarms != [] {
      var tail, a := alarms[1..], alarms[0];
      CallsAreLocal(tail, now, id, tick);
      FindNone(tail, a.id);
      var called := if Due(a, now) then [a.id] else [];
      assert At(TickCalls(alarms, now), tick) == At(called, tick) + At(TickCalls(tail, now), tick);
      TicksOfConcat(id, At(called, tick), At(TickCalls(tail, now), tick));
      assert TicksOf(id, At(called, tick)) == if Due(a, now) && a.id == id then [tick] else [];
    }
  }

  lemma RunSplits(alarms: seq<Alarm>, e: nat, k: nat, answer: Answer, id: nat)
    requires k > 0
    ensures var now := (e + 1) % WORD;
            TicksOf(id, RunCalls(alarms, e, k, answer)) ==
            TicksOf(id, At(TickCalls(alarms, now), e + 1)) +
            TicksOf(id, RunCalls(TickAll(alarms, now, ReplyAt(answer, e + 1)), e + 1, k - 1, answer))
  {
    var now := (e + 1) % WORD;
    TicksOfConcat(id, At(TickCalls(alarms, now), e + 1),
                  RunCalls(TickAll(alarms, now, ReplyAt(answer, e + 1)), e + 1, k - 1, answer));
  }

  /** In a run over any list of alarms, each alarm is called at exactly the ticks
      it would be called at alone. */
  lemma {:induction false} RunIsLocal(alarms: seq<Alarm>, e: nat, k: nat, answer: Answer, id: nat)
    requires Distinct(alarms)
    ensures TicksOf(id, RunCalls(alarms, e, k, answer)) ==
            match Find(alarms, id)
            case None => []
            case Some(a) => CallTimes(a, e, k, answer)
    decreases k
  {
    if k > 0 {
      var now := (e + 1) % WORD;
      var reply := ReplyAt(answer, e + 1);
      var rest := TickAll(alarms, now, reply);
      RunSplits(alarms, e, k, answer, id);
      CallsAreLocal(alarms, now, id, e + 1);
      TickAllDistinct(alarms, now, reply);
      RunIsLocal(rest, e + 1, k - 1, answer, id);
      TickIsLocal(alarms, now, reply, id);
      FindNone(alarms, id);
    }
  }

  /** An alarm put in front of any list of other alarms is called at exactly the
      promised ticks, whatever the others do. */
  lemma StartedAlarmIsExact(alarms: seq<Alarm>, id: nat, nticks: u32, e: nat, k: nat, answer: Answer)
    requires Distinct([Start(id, nticks, e % WORD)] + alarms)
    requires StartsExactly(nticks, e % WORD)
    ensures TicksOf(id, RunCalls([Start(id, nticks, e % WORD)] + alarms, e, k, answer))
            == Schedule(id, e + nticks + 1, e + k, answer)
  {
    var all := [Start(id, nticks, e % WORD)] + alarms;
    RunIsLocal(all, e, k, answer, id);
    StartTracks(id, nticks, e);
    TracksExact(all[0], e + nticks + 1, e, k, answer);
  }
}
