/** The interrupt controller interface: the handler table, the masks and the
    dispatch loop.  A 32-bit mask is the set of the numbers of its bits.

    Between any two statements that touch the shared state stands a call of `Preempt`,
    which takes any number of interrupts when the processor takes them at all.  An
    interrupt runs the dispatch loop, whose handlers register handlers and open
    interruptible sections as they like and are themselves interrupted; `depth`
    bounds how deep that nests. */
module Interrupts {

  const ALT_NIRQ: nat := 32

  type Mask = set<nat>

  /** A handler and its argument; handler 0 is the null pointer. */
  datatype Entry = Entry(handler: nat, context: nat)

  /** A registration of an entry for an interrupt. */
  datatype Registration = Registration(id: nat, entry: Entry)

  datatype Status = Ok | EINVAL

  /** What software does at one level: register handlers or, inside a service
      routine, let higher priority interrupts in around a body. */
  datatype Action =
    | Register(registration: Registration)
    | Section(priority: nat, body: seq<Action>)

  /** A routine opens a section while interrupts are off. */
  predicate Nested(actions: seq<Action>, on: bool) {
    actions == [] ||
    (Nested(actions[1..], on) &&
     match actions[0]
     case Register(_) => true
     case Section(priority, body) => !on && priority < ALT_NIRQ && Nested(body, true))
  }

  /** The valid registrations among the actions, in order. */
  function Registrations(actions: seq<Action>): seq<Registration>
    decreases actions
  {
    if actions == [] then []
    else
      match actions[0]
      case Register(r) => (if r.id < ALT_NIRQ then [r] else []) + Registrations(actions[1..])
      case Section(_, body) => Registrations(body) + Registrations(actions[1..])
  }

  lemma RegistrationsSplit(actions: seq<Action>)
    requires actions != []
    ensures Registrations(actions) == Registrations(actions[..1]) + Registrations(actions[1..])
    ensures Registrations(actions[..1]) ==
            match actions[0]
            case Register(r) => if r.id < ALT_NIRQ then [r] else []
            case Section(_, body) => Registrations(body)
  {
    var first := actions[..1];
    assert first[1..] == [] && first[0] == actions[0];
    assert Registrations(first[1..]) == [];
  }

  /** The table after a series of registrations. */
  function Installed(log: seq<Registration>): (r: seq<Entry>)
    ensures |r| == ALT_NIRQ
  {
    if log == [] then seq(ALT_NIRQ, _ => Entry(0, 0))
    else
      var last, before := log[|log| - 1], Installed(log[..|log| - 1]);
      if last.id < ALT_NIRQ then before[last.id := last.entry] else before
  }

  lemma InstalledSnoc(log: seq<Registration>, r: Registration)
    requires r.id < ALT_NIRQ
    ensures Installed(log + [r]) == Installed(log)[r.id := r.entry]
  {
    assert (log + [r])[..|log|] == log;
  }

  /** The bits below a priority. */
  function Below(priority: nat): (m: Mask)
    ensures forall i :: i in m <==> 0 <= i < priority
  {
    if priority == 0 then {} else Below(priority - 1) + {priority - 1}
  }

  ghost predicate IsLowest(i: nat, m: Mask) {
    i in m && forall j :: j in m ==> i <= j
  }

  /** One round of the dispatch loop: the mask of pending interrupts it was shown,
      those the hardware let through then, the table, and the entry it called. */
  datatype Round = Round(shown: Mask, enabled: Mask, table: seq<Entry>, called: Entry)

  /** What is shown is enabled, and the entry called is the one of the lowest bit
      shown; it has a handler. */
  ghost predicate Proper(r: Round) {
    && r.shown != {} && r.shown <= r.enabled && r.called.handler != 0
    && exists i :: 0 <= i < |r.table| && IsLowest(i, r.shown) && r.called == r.table[i]
  }

  lemma ObeyedAfter(active: Mask, id: nat, on: bool, priorityMask: Mask)
    ensures (if on then active + {id} else active - {id}) <= priorityMask <==>
            (forall i :: i in active && i != id ==> i in priorityMask) && (!on || id in priorityMask)
  {
  }

  // ----- subsequences -------------------------------------------------------

  /** The elements of `a` occur in `b`, in this order. */
  ghost predicate Within<T(!new)>(a: seq<T>, b: seq<T>)
    decreases |b|
  {
    a == [] || (b != [] && ((a[0] == b[0] && Within(a[1..], b[1..])) || Within(a, b[1..])))
  }

  lemma {:induction false} WithinConcat<T(!new)>(a: seq<T>, s: seq<T>, b: seq<T>, t: seq<T>)
    requires Within(a, s) && Within(b, t)
    ensures Within(a + b, s + t)
    decreases |s|
  {
    if s == [] {
      assert a + b == b && s + t == t;
    } else {
      assert (s + t)[0] == s[0] && (s + t)[1..] == s[1..] + t;
      if a != [] && a[0] == s[0] && Within(a[1..], s[1..]) {
        assert (a + b)[1..] == a[1..] + b;
        WithinConcat(a[1..], s[1..], b, t);
      } else {
        WithinConcat(a, s[1..], b, t);
      }
    }
  }

  /** What happened in a first and a second stretch of a log, and around it. */
  lemma Chain<T(!new)>(log: seq<T>, middle: seq<T>, end: seq<T>, a: seq<T>, b: seq<T>)
    requires log <= middle <= end
    requires Within(a, middle[|log|..]) && Within(b, end[|middle|..])
    ensures Within(a + b, end[|log|..])
  {
    WithinConcat(a, middle[|log|..], b, end[|middle|..]);
    assert end[|log|..] == middle[|log|..] + end[|middle|..];
  }

  class Controller {
    const table: array<Entry>
    /** Which interrupts are switched on, and which the hardware lets through. */
    var active: Mask
    var ienable: Mask
    var priorityMask: Mask
    /** Whether the processor takes interrupts. */
    var pie: bool
    /** Every registration made, and every round of every dispatch. */
    ghost var log: seq<Registration>
    ghost var served: seq<Round>

    /** What an interrupt relies on: the table holds whole registered entries, an
        interrupt is switched on exactly when it has a handler, and the hardware lets
        only switched-on ones through. */
    ghost predicate Consistent()
      reads this, table
    {
      && table[..] == Installed(log)
      && (forall i :: i in active <==> 0 <= i < ALT_NIRQ && table[i].handler != 0)
      && ienable <= active
    }

    /** Consistent whenever an interrupt could be taken. */
    ghost predicate Valid()
      reads this, table
    {
      && table.Length == ALT_NIRQ
      && (pie ==> Consistent())
      && (forall r :: r in served ==> Proper(r))
    }

    /** Nothing has happened. */
    twostate predicate Undisturbed()
      reads this, table
    {
      && table[..] == old(table[..]) && priorityMask == old(priorityMask)
      && active == old(active) && ienable == old(ienable)
      && log == old(log) && served == old(served)
    }

    /** Interrupts may have been served. */
    twostate predicate Interrupted()
      reads this
    {
      && pie == old(pie) && priorityMask == old(priorityMask)
      && old(log) <= log && old(served) <= served
    }

    constructor ()
      ensures Valid() && Consistent() && fresh(table) && !pie
      ensures log == [] && served == [] && active == ienable == {} && priorityMask == Below(ALT_NIRQ)
    {
      table := new Entry[ALT_NIRQ](_ => Entry(0, 0));
      active, ienable, pie := {}, {}, false;
      priorityMask := Below(ALT_NIRQ);
      log, served := [], [];
      new;
      assert table[..] == Installed([]);
    }

    // ----- interrupts ---------------------------------------------------------

    /** Whatever interrupts occur between two statements. */
    method Preempt(depth: nat)
      requires Valid()
      modifies this, table
      ensures Valid() && Interrupted()
      ensures !pie ==> Undisturbed()
      decreases depth, 0
    {
      var events: nat :| events >= 0;
      if pie && depth > 0 {
        while events > 0
          invariant Valid() && Interrupted() && pie
        {
          Interrupt(depth - 1);
          events := events - 1;
        }
      }
    }

    /** The mask of pending interrupts: only enabled ones are shown. */
    method Pending() returns (shown: Mask)
      ensures shown <= ienable
    {
      shown := *;
      if !(shown <= ienable) {
        shown := {};
      }
    }

    /** An interrupt, if one is pending: the processor turns interrupts off for its
        service. */
    method Interrupt(depth: nat)
      requires Valid() && pie
      modifies this, table
      ensures Valid() && Interrupted()
      decreases depth, 7
    {
      var shown := Pending();
      if shown != {} {
        pie := false;
        Dispatch(shown, depth);
        pie := true;
      }
    }

    /** Serve what is pending, always the lowest bit first, until a read of the
        pending mask shows nothing. */
    method Dispatch(shown: Mask, depth: nat)
      requires Valid() && Consistent() && !pie && shown != {} && shown <= ienable
      modifies this, table
      ensures Valid() && Consistent() && Interrupted()
      ensures |served| > old(|served|)
      ensures var first := served[old(|served|)];
              first.shown == shown && first.enabled == old(ienable) && first.table == old(table[..])
      decreases depth, 6
    {
      var rounds: nat :| rounds >= 0;
      Serve(shown, depth);
      var pending := Pending();
      while pending != {} && rounds > 0
        invariant Valid() && Consistent() && Interrupted() && !pie && pending <= ienable
        invariant |served| > old(|served|)
        invariant var first := served[old(|served|)];
                  first.shown == shown && first.enabled == old(ienable) && first.table == old(table[..])
        decreases rounds
      {
        Serve(pending, depth);
        pending := Pending();
        rounds := rounds - 1;
      }
    }

    /** One round: call the handler of the lowest bit shown. */
    method Serve(shown: Mask, depth: nat)
      requires Valid() && Consistent() && !pie && shown != {} && shown <= ienable
      modifies this, table
      ensures Valid() && Consistent() && Interrupted()
      ensures |served| > old(|served|)
      ensures var first := served[old(|served|)];
              first.shown == shown && first.enabled == old(ienable) && first.table == old(table[..])
      decreases depth, 5
    {
      var i := LowestBit(shown);
      assert i in active;
      Call(table[i], shown, i, depth);
    }

    /** Call the handler of an entry, the one of the lowest bit `i` shown.  A handler
        may do anything that keeps to the calling rules. */
    method Call(entry: Entry, ghost shown: Mask, ghost i: nat, depth: nat)
      requires Valid() && Consistent() && !pie && IsLowest(i, shown) && shown <= ienable
      requires i < ALT_NIRQ && entry == table[i] && entry.handler != 0
      modifies this, table
      ensures Valid() && Consistent() && Interrupted()
      ensures old(served) + [Round(shown, old(ienable), old(table[..]), entry)] <= served
      decreases depth, 4
    {
      ghost var round := Round(shown, ienable, table[..], entry);
      assert Proper(round) by {
        assert IsLowest(i, shown) && round.called == round.table[i];
      }
      served := served + [round];
      var actions: seq<Action> := *;
      if Nested(actions, false) {
        Perform(actions, depth);
      }
    }

    /** Find the lowest set bit by testing one bit after the other. */
    method LowestBit(pending: Mask) returns (i: nat)
      requires pending != {} && pending <= Below(ALT_NIRQ)
      ensures IsLowest(i, pending) && i < ALT_NIRQ
    {
      i := 0;
      var mask: Mask := {0};
      while pending * mask == {}
        invariant mask == {i} && i <= ALT_NIRQ
        invariant forall j :: j in pending ==> i <= j
        decreases ALT_NIRQ - i
      {
        assert i in pending ==> i in pending * mask;
        i := i + 1;
        mask := {i};
        ghost var some: nat :| some in pending;
        assert some in Below(ALT_NIRQ);
      }
      assert i in pending;
    }

    // ----- software -------------------------------------------------------------

    /** Any nesting of registrations and interruptible sections, interrupted wherever
        interrupts are on: every round of every dispatch is proper, the registrations
        take effect in order, and at the end the mask agrees with the table and the
        interrupt state and the priority mask are back to what they were. */
    method Perform(actions: seq<Action>, depth: nat)
      requires Valid() && Consistent() && Nested(actions, pie)
      modifies this, table
      ensures Valid() && Consistent() && Interrupted()
      ensures Within(Registrations(actions), log[old(|log|)..])
      decreases depth, 3, actions, 2
    {
      if actions == [] {
        Preempt(depth);
        return;
      }
      First(actions, depth);
      ghost var middle := log;
      Perform(actions[1..], depth);
      RegistrationsSplit(actions);
      Chain(old(log), middle, log, Registrations(actions[..1]), Registrations(actions[1..]));
    }

    /** The first of some actions, after whatever interrupts come before it. */
    method First(actions: seq<Action>, depth: nat)
      requires Valid() && Consistent() && actions != [] && Nested(actions, pie)
      modifies this, table
      ensures Valid() && Consistent() && Interrupted()
      ensures Within(Registrations(actions[..1]), log[old(|log|)..])
      decreases depth, 3, actions, 1
    {
      RegistrationsSplit(actions);
      Preempt(depth);
      ghost var start := log;
      Act(actions, depth);
      Chain(old(log), start, log, [], Registrations(actions[..1]));
      assert [] + Registrations(actions[..1]) == Registrations(actions[..1]);
    }

    method Act(actions: seq<Action>, depth: nat)
      requires Valid() && Consistent() && actions != [] && Nested(actions, pie)
      modifies this, table
      ensures Valid() && Consistent() && Interrupted()
      ensures Within(Registrations(actions[..1]), log[old(|log|)..])
      decreases depth, 3, actions, 0
    {
      RegistrationsSplit(actions);
      match actions[0]
      case Register(r) =>
        var _ := RegisterHandler(r.id, r.entry.context, r.entry.handler, depth);
        assert log[old(|log|)..] == Registrations(actions[..1]);
      case Section(priority, body) =>
        var oldPriority := Interruptible(priority, depth);
        Perform(body, depth);
        NonInterruptible(oldPriority, depth);
    }

    method DisableAll() returns (context: bool)
      modifies this`pie
      ensures !pie && context == old(pie)
    {
      context := pie;
      pie := false;
    }

    method EnableAll(context: bool)
      modifies this`pie
      ensures pie == context
    {
      pie := context;
    }

    /** Go back to a former context after an update: from here on interrupts may find
        the state, which therefore has to be consistent if they were on. */
    method Resume(context: bool)
      requires table.Length == ALT_NIRQ && (context ==> Consistent())
      modifies this`pie
      ensures pie == context
    {
      EnableAll(context);
    }

    /** Switch an interrupt on.  Nothing is served meanwhile; afterwards interrupts
        find the table and the mask in agreement exactly when there is a handler. */
    method IrqEnable(id: nat, depth: nat)
      requires Valid() && id < ALT_NIRQ
      modifies this, table
      ensures pie == old(pie) && active == old(active) + {id} && ienable == active
      ensures table[..] == old(table[..]) && priorityMask == old(priorityMask) && log == old(log) && served == old(served)
      ensures Valid() <==> !pie || table[id].handler != 0
      decreases depth, 1
    {
      var status := DisableAll();
      Preempt(depth);
      var mask := active;
      Preempt(depth);
      active := mask + {id};
      Preempt(depth);
      ienable := active;
      Preempt(depth);
      EnableAll(status);
    }

    method IrqDisable(id: nat, depth: nat)
      requires Valid() && id < ALT_NIRQ
      modifies this, table
      ensures pie == old(pie) && active == old(active) - {id} && ienable == active
      ensures table[..] == old(table[..]) && priorityMask == old(priorityMask) && log == old(log) && served == old(served)
      ensures Valid() <==> !pie || table[id].handler == 0
      decreases depth, 1
    {
      var status := DisableAll();
      Preempt(depth);
      var mask := active;
      Preempt(depth);
      active := mask - {id};
      Preempt(depth);
      ienable := active;
      Preempt(depth);
      EnableAll(status);
    }

    /** Write an entry of the table, in two stores. */
    method StoreEntry(id: nat, context: nat, handler: nat, depth: nat)
      requires Valid() && !pie && id < ALT_NIRQ
      modifies this, table
      ensures Valid() && !pie && table[..] == old(table[..])[id := Entry(handler, context)]
      ensures active == old(active) && ienable == old(ienable) && priorityMask == old(priorityMask)
      ensures log == old(log) && served == old(served)
      decreases depth, 1
    {
      Preempt(depth);
      table[id] := table[id].(handler := handler);
      Preempt(depth);
      table[id] := table[id].(context := context);
      Preempt(depth);
    }

    /** Install a handler, or take one out with handler 0.  The table, half written,
        and the mask disagree in between; the inner calls restore a disabled context,
        so that no interrupt is served from beginning to end.  In an open section the
        priority mask stays obeyed exactly when it covers the new entry, if that has a
        handler, and everything else that is switched on. */
    method RegisterHandler(id: nat, context: nat, handler: nat, depth: nat) returns (rc: Status)
      requires Valid() && Consistent()
      modifies this, table
      ensures Valid() && Consistent() && pie == old(pie)
      ensures served == old(served) && priorityMask == old(priorityMask)
      ensures rc == if id < ALT_NIRQ then Ok else EINVAL
      ensures rc == EINVAL ==> Undisturbed()
      ensures rc == Ok ==>
                && log == old(log) + [Registration(id, Entry(handler, context))]
                && table[..] == old(table[..])[id := Entry(handler, context)]
                && active == (if handler != 0 then old(active) + {id} else old(active) - {id})
                && ienable == active
      ensures rc == Ok ==>
                (ienable <= priorityMask <==>
                 (forall i :: i in old(active) && i != id ==> i in priorityMask) && (handler == 0 || id in priorityMask))
      decreases depth, 2
    {
      if id >= ALT_NIRQ {
        return EINVAL;
      }
      var status := DisableAll();
      StoreEntry(id, context, handler, depth);
      if handler != 0 {
        IrqEnable(id, depth);
      } else {
        IrqDisable(id, depth);
      }
      Preempt(depth);
      ObeyedAfter(old(active), id, handler != 0, priorityMask);
      InstalledSnoc(log, Registration(id, Entry(handler, context)));
      log := log + [Registration(id, Entry(handler, context))];
      Resume(status);
      rc := Ok;
    }

    /** Let higher priority interrupts into a running service routine. */
    method Interruptible(priority: nat, depth: nat) returns (oldPriority: Mask)
      requires Valid() && Consistent() && !pie && priority < ALT_NIRQ
      modifies this, table
      ensures Valid() && Consistent() && pie
      ensures oldPriority == old(priorityMask)
      ensures priorityMask == Below(priority) && ienable == active * priorityMask
      ensures active == old(active) && table[..] == old(table[..]) && log == old(log) && served == old(served)
      decreases depth, 1
    {
      oldPriority := priorityMask;
      Preempt(depth);
      priorityMask := Below(priority);
      Preempt(depth);
      ienable := active * priorityMask;
      Preempt(depth);
      pie := true;
    }

    /** Go back to the former priority mask, with interrupts off. */
    method NonInterruptible(mask: Mask, depth: nat)
      requires Valid() && Consistent()
      modifies this, table
      ensures Valid() && Consistent() && !pie
      ensures priorityMask == mask && ienable == mask * active
      ensures active == old(active) && table[..] == old(table[..]) && log == old(log) && served == old(served)
      decreases depth, 1
    {
      pie := false;
      Preempt(depth);
      priorityMask := mask;
      Preempt(depth);
      ienable := mask * active;
    }
  }

  /** The failing case: the routine of interrupt 5 opens its section, which shuts out
      5 and everything above, and registers a handler for interrupt 3; now interrupt
      5 is let through again. */
  method SectionLeaks() returns (c: Controller)
    ensures fresh(c) && c.Valid() && c.pie
    ensures c.priorityMask == Below(5) && 5 in c.ienable && 5 !in c.priorityMask
  {
    c := new Controller();
    var _ := c.RegisterHandler(5, 0, 1, 0);
    var _ := c.Interruptible(5, 0);
    assert 5 !in c.ienable;
    var _ := c.RegisterHandler(3, 0, 2, 0);
  }
}
