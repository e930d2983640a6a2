/** The interrupt-driven JTAG UART driver.

    The foreground routines (`Read`, `Write`, `Close`, `Ioctl`) share two rings, the
    interrupt enable mask and the host-presence counter with the interrupt
    routine and the one-second timeout.  Wherever a foreground routine touches
    the shared state it first calls `Preempt`, which runs any number of interrupt
    passes, timeouts and host actions; with interrupts off only the host acts.
    `Valid` therefore holds in every state an interrupt can observe. */
module JtagUart {
  import opened TransferRing

  newtype byte = b: int | 0 <= b < 256

  const INT_MAX: nat := 0x7FFF_FFFF
  const DEFAULT_TIMEOUT: nat := 10

  /** The two enable bits of the control register (RE and WE). */
  datatype Enables = Enables(re: bool, we: bool)

  /** The UART hardware: its enable bits, the room left in its transmit FIFO, its
      receive FIFO and the host-activity bit. */
  datatype Device = Device(enables: Enables, wspace: nat, fifo: seq<byte>, ac: bool)

  datatype DataWord = DataWord(value: byte, valid: bool, avail: nat)

  datatype ControlWord = ControlWord(ri: bool, wi: bool, ac: bool, wspace: nat)

  datatype Error = EIO | EWOULDBLOCK | ENOTTY

  /** How a transfer ends: with a byte count, with an error, or still spinning in
      a wait loop when its allowance of polls is used up. */
  datatype Outcome = Bytes(n: nat) | Failed(error: Error) | Spinning(partial: nat)
  {
    function Moved(): nat {
      match this
      case Bytes(n) => n
      case Failed(_) => 0
      case Spinning(n) => n
    }
  }

  datatype Request = SetTimeout(value: int) | GetConnected | Other

  function Min(a: int, b: int): int {
    if a <= b then a else b
  }

  function Max(a: int, b: int): int {
    if a >= b then a else b
  }

  /** Publishing a block extends the accepted bytes by that block. */
  lemma AppendHistory(accepted: seq<byte>, sent: seq<byte>, ring: seq<byte>, block: seq<byte>)
    requires accepted == sent + ring
    ensures accepted + block == sent + (ring + block)
  {
  }

  /** Releasing a prefix of the ring moves it to the delivered bytes. */
  lemma SplitHistory(delivered: seq<byte>, ring: seq<byte>, k: nat)
    requires k <= |ring|
    ensures delivered + ring == delivered + ring[..k] + ring[k..]
  {
    assert ring == ring[..k] + ring[k..];
  }

  lemma AppendSlice(base: seq<byte>, data: seq<byte>, i: nat, j: nat)
    requires i <= j <= |data|
    ensures base + data[..i] + data[i..j] == base + data[..j]
  {
    assert data[..i] + data[i..j] == data[..j];
  }

  class Uart {
    const n: nat
    const rxBuf: array<byte>
    const txBuf: array<byte>
    var rxIn: nat
    var rxOut: nat
    var txIn: nat
    var txOut: nat
    var irqEnable: Enables
    var hostInactive: nat
    var timeout: nat
    /** Whether the processor takes interrupts. */
    var pie: bool
    var device: Device

    /** Everything the host typed, what the driver took from the receive FIFO,
        and what completed reads released to the caller. */
    ghost var hostSent: seq<byte>
    ghost var popped: seq<byte>
    ghost var delivered: seq<byte>
    /** What writes accepted and what was handed to the transmit FIFO. */
    ghost var accepted: seq<byte>
    ghost var sent: seq<byte>
    /** Set between an index update and the enable-bit update that follows it. */
    ghost var rxPending: bool
    ghost var txPending: bool
    /** How many seconds passed without host activity, how often a host that counted
        as gone came back, and how many waits of reads and writes came to an end. */
    ghost var idle: nat
    ghost var comebacks: nat
    ghost var waits: nat
    /** Every control word read. */
    ghost var controls: seq<ControlWord>

    ghost predicate Shape()
      reads this
    {
      && n >= 2
      && rxBuf.Length == n && txBuf.Length == n && rxBuf != txBuf
      && rxIn < n && rxOut < n && txIn < n && txOut < n
      && hostInactive <= INT_MAX - 2
      && 2 <= timeout <= INT_MAX
      && hostSent == popped + device.fifo
      && (hostInactive > 0 || comebacks > 0 ==> idle > 0)
    }

    /** The host counts as gone. */
    predicate Gone()
      reads this`hostInactive, this`timeout
    {
      hostInactive >= timeout
    }

    /** Received bytes the reader has not taken yet. */
    ghost function RxRing(): seq<byte>
      requires rxIn < rxBuf.Length && rxOut < rxBuf.Length
      reads this`rxIn, this`rxOut, rxBuf
    {
      Contents(rxBuf[..], rxOut, rxIn)
    }

    /** Accepted bytes that have not reached the device yet. */
    ghost function TxRing(): seq<byte>
      requires txIn < txBuf.Length && txOut < txBuf.Length
      reads this`txIn, this`txOut, txBuf
    {
      Contents(txBuf[..], txOut, txIn)
    }

    ghost predicate Valid()
      reads this, rxBuf, txBuf
    {
      && Shape()
      // both directions lose, duplicate and reorder nothing
      && popped == delivered + RxRing()
      && accepted == sent + TxRing()
      // no lost wakeup
      && (!rxPending && !device.enables.re ==> |RxRing()| == n - 1)
      && (!txPending && !device.enables.we ==> TxRing() == [])
      && irqEnable == device.enables
    }

    /** No foreground routine is between an index update and its enable. */
    ghost predicate Quiet()
      reads this
    {
      !rxPending && !txPending
    }

    /** A host that counted as gone still does, or came back. */
    twostate predicate Watched()
      reads this
    {
      && idle >= old(idle) && comebacks >= old(comebacks) && old(controls) <= controls
      && (old(Gone()) && !Gone() ==> comebacks > old(comebacks))
    }

    /** What interrupts, the host and the update of the enable bits leave alone, and
        how the histories grow. */
    twostate predicate Grown()
      reads this
    {
      && Watched()
      && rxOut == old(rxOut) && txIn == old(txIn) && timeout == old(timeout)
      && delivered == old(delivered) && accepted == old(accepted)
      && old(hostSent) <= hostSent && old(popped) <= popped && old(sent) <= sent
    }

    /** What interrupts and the host leave alone. */
    twostate predicate Kept()
      reads this
    {
      Grown() && rxPending == old(rxPending) && txPending == old(txPending)
    }

    /** The effect of any number of interrupts: with interrupts off, none. */
    twostate predicate Interfered()
      reads this
    {
      && Kept()
      && pie == old(pie) && waits == old(waits)
      && (!pie ==>
          && irqEnable == old(irqEnable) && device.enables == old(device.enables)
          && rxIn == old(rxIn) && txOut == old(txOut)
          && popped == old(popped) && sent == old(sent)
          && hostInactive == old(hostInactive) && idle == old(idle) && comebacks == old(comebacks))
    }

    // ----- the device ------------------------------------------------------

    /** The host types, drains the transmit FIFO, or shows activity. */
    method HostStep()
      requires Shape()
      modifies this`device, this`hostSent
      ensures Shape() && device.enables == old(device.enables)
      ensures device.wspace >= old(device.wspace)
      ensures old(hostSent) <= hostSent && old(device.fifo) <= device.fifo
    {
      var typed: seq<byte>, active: bool := *, *;
      var drained: nat :| drained >= 0;
      device := device.(fifo := device.fifo + typed, wspace := device.wspace + drained, ac := active);
      hostSent := hostSent + typed;
    }

    /** Read the control register: a pending bit is shown only while its enable
        bit is set. */
    method IordControl() returns (c: ControlWord)
      modifies this`controls
      ensures controls == old(controls) + [c]
      ensures c.ri ==> device.enables.re
      ensures c.wi ==> device.enables.we
      ensures c.ac == device.ac && c.wspace == device.wspace
    {
      var ri: bool, wi: bool := *, *;
      c := ControlWord(ri && device.enables.re, wi && device.enables.we, device.ac, device.wspace);
      controls := controls + [c];
    }

    method IowrControl(e: Enables, clearActivity: bool)
      modifies this`device
      ensures device == old(device).(enables := e, ac := if clearActivity then false else old(device.ac))
    {
      device := device.(enables := e, ac := if clearActivity then false else device.ac);
    }

    /** Read the data register: takes one byte from the receive FIFO and tells how
        many are left. */
    method IordData() returns (d: DataWord)
      requires hostSent == popped + device.fifo
      modifies this`device, this`popped
      ensures hostSent == popped + device.fifo
      ensures device == old(device).(fifo := device.fifo)
      ensures d.valid <==> old(device.fifo) != []
      ensures d.avail == |device.fifo|
      ensures popped == if d.valid then old(popped) + [d.value] else old(popped)
    {
      if device.fifo == [] {
        d := DataWord(0, false, 0);
      } else {
        d := DataWord(device.fifo[0], true, |device.fifo| - 1);
        popped := popped + [device.fifo[0]];
        device := device.(fifo := device.fifo[1..]);
      }
    }

    method IowrData(b: byte)
      requires device.wspace > 0
      modifies this`device, this`sent
      ensures device == old(device).(wspace := old(device.wspace) - 1)
      ensures sent == old(sent) + [b]
    {
      device := device.(wspace := device.wspace - 1);
      sent := sent + [b];
    }

    // ----- interrupt level -------------------------------------------------

    /** Interrupts are off and the mask word agrees with the device. */
    ghost predicate InIsr()
      reads this
    {
      !pie && irqEnable == device.enables
    }

    /** Take a byte from the receive FIFO, if there is one, and store it in a ring that
        is not full. */
    method TakeIn() returns (data: DataWord)
      requires Shape() && (rxIn + 1) % n != rxOut
      modifies this`device, this`popped, this`rxIn, rxBuf
      ensures Shape() && device == old(device).(fifo := device.fifo)
      ensures data.avail == |device.fifo| && (!data.valid ==> data.avail == 0)
      ensures var taken := if data.valid then [data.value] else [];
              popped == old(popped) + taken && RxRing() == old(RxRing()) + taken
    {
      data := IordData();
      if data.valid {
        StoreReceived(data.value);
      }
    }

    /** The same, with the host typing meanwhile.  When no byte is left, everything the
        host had typed is taken. */
    method ReceiveByte() returns (data: DataWord)
      requires Valid() && InIsr() && (rxIn + 1) % n != rxOut
      modifies this`device, this`hostSent, this`popped, this`rxIn, rxBuf
      ensures Valid() && Kept() && InIsr()
      ensures device.enables == old(device.enables) && device.wspace >= old(device.wspace)
      ensures data.valid ==> |RxRing()| == old(|RxRing()|) + 1
      ensures data.avail == 0 ==> |popped| >= old(|hostSent|)
      ensures !data.valid ==> data.avail == 0
    {
      HostStep();
      ghost var before, ring := popped, RxRing();
      data := TakeIn();
      AppendHistory(before, delivered, ring, if data.valid then [data.value] else []);
    }

    /** Append a byte to the receive ring. */
    method StoreReceived(b: byte)
      requires Shape() && (rxIn + 1) % n != rxOut
      modifies this`rxIn, rxBuf
      ensures Shape() && RxRing() == old(RxRing()) + [b]
    {
      Push(rxBuf[..], rxOut, rxIn, b);
      ghost var before := rxBuf[..];
      rxBuf[rxIn] := b;
      assert rxBuf[..] == before[rxIn := b];
      rxIn := (rxIn + 1) % n;
    }

    /** One turn of the receive loop: stop when the ring is full, else try to take
        a byte and stop when there was none.  `typed` counts what the host had typed
        when the loop began. */
    method ReceiveStep(last: DataWord, ghost typed: nat) returns (data: DataWord, more: bool)
      requires Valid() && InIsr() && typed <= |hostSent| && (last.avail == 0 ==> |popped| >= typed)
      modifies this`device, this`hostSent, this`popped, this`rxIn, rxBuf
      ensures Valid() && Kept() && InIsr()
      ensures device.enables == old(device.enables) && device.wspace >= old(device.wspace)
      ensures more ==> |RxRing()| == old(|RxRing()|) + 1
      ensures data.avail == 0 ==> |popped| >= typed
      ensures !more ==> |RxRing()| == n - 1 || data.avail == 0
    {
      FullTest(rxBuf[..], rxOut, rxIn);
      var next := (rxIn + 1) % n;
      if next == rxOut {
        return last, false;
      }
      data := ReceiveByte();
      more := data.valid;
      HostStep();
    }

    /** The receive loop: it ends with a full ring, or when everything the host had
        typed at its start is taken. */
    method ReceiveAll() returns (data: DataWord)
      requires Valid() && InIsr()
      modifies this`device, this`hostSent, this`popped, this`rxIn, rxBuf
      ensures Valid() && Kept() && InIsr()
      ensures device.enables == old(device.enables) && device.wspace >= old(device.wspace)
      ensures |RxRing()| == n - 1 || data.avail == 0
      ensures data.avail == 0 ==> |popped| >= old(|hostSent|)
    {
      var more := true;
      data := DataWord(0, false, 1);
      while more
        invariant Valid() && Kept() && InIsr()
        invariant device.enables == old(device.enables) && device.wspace >= old(device.wspace)
        invariant data.avail == 0 ==> |popped| >= old(|hostSent|)
        invariant !more ==> |RxRing()| == n - 1 || data.avail == 0
        decreases n - |RxRing()|, more
      {
        data, more := ReceiveStep(data, old(|hostSent|));
      }
    }

    /** The receive half of an interrupt pass.  Unless it takes everything the host
        had typed, it fills the ring and turns its own interrupt off. */
    method Receive()
      requires Valid() && InIsr()
      modifies this`device, this`controls, this`hostSent, this`popped, this`rxIn, this`irqEnable, rxBuf
      ensures Valid() && Kept() && InIsr()
      ensures device.enables.we == old(device.enables.we) && device.wspace >= old(device.wspace)
      ensures |RxRing()| >= Min(n - 1, old(|RxRing()| + |device.fifo|))
      ensures device.enables.re ==> old(hostSent) <= popped
    {
      var data := ReceiveAll();
      if data.avail != 0 {
        ClearEnables(irqEnable.(re := false));
      }
    }

    /** Turn an interrupt off, at interrupt level. */
    method ClearEnables(e: Enables)
      requires Shape()
      modifies this`irqEnable, this`device, this`controls
      ensures Shape() && irqEnable == e && device == old(device).(enables := e)
      ensures old(controls) <= controls
    {
      irqEnable := e;
      IowrControl(irqEnable, false);
      var _ := IordControl();
    }

    /** Move the oldest byte of the transmit ring to the device. */
    method HandOver()
      requires Shape() && txOut != txIn && device.wspace > 0
      modifies this`device, this`sent, this`txOut
      ensures Shape() && old(|TxRing()|) > 0
      ensures sent == old(sent) + old(TxRing())[..1] && TxRing() == old(TxRing())[1..]
      ensures device == old(device).(wspace := old(device.wspace) - 1)
    {
      TakeBlock(txBuf[..], txOut, txIn, 1);
      IowrData(txBuf[txOut]);
      txOut := (txOut + 1) % n;
    }

    /** The same, with the host draining the transmit FIFO meanwhile. */
    method SendByte()
      requires Valid() && InIsr() && txOut != txIn && device.wspace > 0
      modifies this`device, this`hostSent, this`sent, this`txOut
      ensures Valid() && Kept() && InIsr()
      ensures device.wspace >= old(device.wspace) - 1 && device.enables == old(device.enables)
      ensures |TxRing()| == old(|TxRing()|) - 1 && |sent| == old(|sent|) + 1
    {
      HostStep();
      SplitHistory(sent, TxRing(), 1);
      HandOver();
    }

    /** The transmit loop: it ends with an empty ring or when the room shown is used
        up. */
    method SendAll(room: nat) returns (space: nat)
      requires Valid() && InIsr() && room <= device.wspace
      modifies this`device, this`hostSent, this`sent, this`txOut
      ensures Valid() && Kept() && InIsr() && device.enables == old(device.enables)
      ensures space <= room && |sent| == old(|sent|) + (room - space)
      ensures |TxRing()| == old(|TxRing()|) - (room - space)
      ensures space == 0 || TxRing() == []
    {
      space := room;
      while space > 0 && txOut != txIn
        invariant Valid() && Kept() && InIsr()
        invariant space <= device.wspace && device.enables == old(device.enables)
        invariant space <= room && |TxRing()| == old(|TxRing()|) - (room - space)
        invariant |sent| == old(|sent|) + (room - space)
      {
        SendByte();
        space := space - 1;
      }
    }

    /** The transmit half of an interrupt pass, given the room the control register
        showed: it sends what fits and turns its own interrupt off when that was
        everything and room is left. */
    method Transmit(room: nat)
      requires Valid() && InIsr() && room <= device.wspace
      modifies this`device, this`controls, this`hostSent, this`sent, this`txOut, this`irqEnable
      ensures Valid() && Kept() && InIsr()
      ensures |sent| == old(|sent|) + Min(room, old(|TxRing()|))
      ensures device.enables == old(device.enables).(we := old(device.enables.we) && room <= old(|TxRing()|))
    {
      var space := SendAll(room);
      if space > 0 {
        ClearEnables(irqEnable.(we := false));
      }
    }

    /** Serve what the control register showed, and nothing else. */
    method Serve(c: ControlWord)
      requires Valid() && InIsr() && c.wspace <= device.wspace
      modifies this`device, this`controls, this`hostSent, this`popped, this`rxIn, this`irqEnable, this`sent, this`txOut, rxBuf
      ensures Valid() && Kept() && InIsr()
      ensures c.ri ==> |RxRing()| >= Min(n - 1, old(|RxRing()| + |device.fifo|))
      ensures c.wi ==> |sent| == old(|sent|) + Min(c.wspace, old(|TxRing()|))
      ensures !c.ri ==> rxIn == old(rxIn) && popped == old(popped) && device.enables.re == old(device.enables.re)
      ensures !c.wi ==> txOut == old(txOut) && sent == old(sent) && device.enables.we == old(device.enables.we)
      ensures !c.ri && !c.wi ==> controls == old(controls)
    {
      if c.ri {
        Receive();
      }
      if c.wi {
        Transmit(c.wspace);
      }
    }

    /** One turn of the interrupt routine's outer loop: it reads the control register,
        serves exactly the pending bits shown and goes on if there was one. */
    method Pass() returns (more: bool)
      requires Valid() && InIsr()
      modifies this`device, this`controls, this`hostSent, this`popped, this`rxIn, this`irqEnable, this`sent, this`txOut, rxBuf
      ensures Valid() && Kept() && InIsr() && |controls| > old(|controls|)
      ensures var c := controls[old(|controls|)];
              && more == (c.ri || c.wi) && (!more ==> controls == old(controls) + [c])
              && (c.ri ==> |RxRing()| >= Min(n - 1, old(|RxRing()| + |device.fifo|)))
              && (c.wi ==> |sent| == old(|sent|) + Min(c.wspace, old(|TxRing()|)))
              && (c.wi ==> c.wspace >= old(device.wspace))
              && (!c.ri ==> rxIn == old(rxIn) && popped == old(popped))
              && (!c.wi ==> txOut == old(txOut) && sent == old(sent))
    {
      HostStep();
      var control := IordControl();
      Serve(control);
      more := control.ri || control.wi;
    }

    /** The control word read last shows nothing pending. */
    ghost predicate SeenIdle()
      reads this`controls
    {
      controls != [] && var c := controls[|controls| - 1]; !c.ri && !c.wi
    }

    /** A turn, as the loop needs it. */
    method Turn() returns (more: bool)
      requires Valid() && InIsr()
      modifies this`device, this`controls, this`hostSent, this`popped, this`rxIn, this`irqEnable, this`sent, this`txOut, rxBuf
      ensures Valid() && Kept() && InIsr() && |controls| > old(|controls|)
      ensures !more ==> SeenIdle()
    {
      more := Pass();
    }

    /** The interrupt routine's outer loop: it ends when the control word read last
        shows nothing pending.  `done` is false when `passes` turns, each with a read
        of the register, were not enough. */
    method Passes(passes: nat) returns (done: bool)
      requires Valid() && InIsr()
      modifies this`device, this`controls, this`hostSent, this`popped, this`rxIn, this`irqEnable, this`sent, this`txOut, rxBuf
      ensures Valid() && Kept() && InIsr()
      ensures if done then SeenIdle() else |controls| >= old(|controls|) + passes
    {
      var k := 0;
      done := false;
      while k < passes && !done
        invariant Valid() && Kept() && InIsr() && |controls| >= old(|controls|) + k
        invariant done ==> SeenIdle()
        decreases passes - k
      {
        var more := Turn();
        done := !more;
        k := k + 1;
      }
    }

    /** The interrupt routine: interrupts are off while it runs. */
    method Irq(passes: nat)
      requires Valid() && pie
      modifies this`device, this`controls, this`hostSent, this`popped, this`rxIn, this`irqEnable, this`sent, this`txOut, this`pie, rxBuf
      ensures Valid() && Kept() && pie
    {
      pie := false;
      var _ := Passes(passes);
      pie := true;
    }

    /** Count the seconds without activity, up to a limit. */
    method Tally(active: bool)
      modifies this`hostInactive, this`idle, this`comebacks
      ensures hostInactive == if active then 0 else Max(old(hostInactive), Min(old(hostInactive) + 1, INT_MAX - 2))
      ensures idle == old(idle) + if active then 0 else 1
      ensures comebacks == old(comebacks) + if active && old(Gone()) then 1 else 0
    {
      idle := idle + if active then 0 else 1;
      comebacks := comebacks + if active && Gone() then 1 else 0;
      if active {
        hostInactive := 0;
      } else if hostInactive < INT_MAX - 2 {
        hostInactive := hostInactive + 1;
      }
    }

    /** The once-a-second check for the presence of the host, at interrupt level. */
    method Timeout()
      requires Valid()
      modifies this`device, this`controls, this`hostInactive, this`idle, this`comebacks
      ensures Valid() && Kept()
      ensures hostInactive == if old(device.ac) then 0 else Min(old(hostInactive) + 1, INT_MAX - 2)
      ensures device == old(device).(ac := false)
      ensures idle == old(idle) + if old(device.ac) then 0 else 1
      ensures comebacks == old(comebacks) + if old(Gone()) && old(device.ac) then 1 else 0
    {
      var control := IordControl();
      if control.ac {
        IowrControl(irqEnable, true);
      }
      Tally(control.ac);
    }

    /** Something that may happen between two foreground steps. */
    method Event()
      requires Valid()
      modifies this, rxBuf
      ensures Valid() && Interfered()
      ensures !pie ==> rxBuf[..] == old(rxBuf[..])
    {
      var timer: bool := *;
      var passes: nat :| passes >= 0;
      if !pie {
        HostStep();
      } else if timer {
        Timeout();
      } else {
        Irq(passes);
      }
    }

    /** Whatever happens between two foreground steps. */
    method Preempt()
      requires Valid()
      modifies this, rxBuf
      ensures Valid() && Interfered()
      ensures !pie ==> rxBuf[..] == old(rxBuf[..])
    {
      var events: nat :| events >= 0;
      while events > 0
        invariant Valid() && Interfered()
        invariant !pie ==> rxBuf[..] == old(rxBuf[..])
      {
        Event();
        events := events - 1;
      }
    }

    /** All that the host alone can change. */
    twostate predicate HostOnly()
      reads this, rxBuf
    {
      && rxBuf[..] == old(rxBuf[..])
      && device.enables == old(device.enables) && device.wspace >= old(device.wspace)
      && old(hostSent) <= hostSent && popped == old(popped) && sent == old(sent)
      && rxIn == old(rxIn) && rxOut == old(rxOut) && txIn == old(txIn) && txOut == old(txOut)
      && irqEnable == old(irqEnable) && hostInactive == old(hostInactive) && timeout == old(timeout)
      && delivered == old(delivered) && accepted == old(accepted)
      && rxPending == old(rxPending) && txPending == old(txPending)
      && idle == old(idle) && comebacks == old(comebacks) && waits == old(waits)
      && controls == old(controls)
    }

    /** Whatever happens between two steps of an update: with interrupts on they must
        find the driver consistent, with interrupts off only the host acts. */
    method Interlude()
      requires Shape() && (pie ==> Valid())
      modifies this, rxBuf
      ensures Shape() && pie == old(pie)
      ensures if pie then Valid() && Interfered() else HostOnly()
    {
      if pie {
        Preempt();
      } else {
        HostStep();
      }
    }

    // ----- foreground: transmit --------------------------------------------

    /** Store the next byte of a block in its free slot. */
    method StoreByte(block: seq<byte>, j: nat)
      requires Valid() && j < |block| && txIn + |block| <= n && |block| + |TxRing()| < n
      requires txBuf[txIn..txIn + j] == block[..j]
      modifies this, rxBuf, txBuf
      ensures Valid() && Interfered() && |TxRing()| <= old(|TxRing()|)
      ensures txBuf[txIn..txIn + j + 1] == block[..j + 1]
    {
      Preempt();
      WriteOutside(txBuf[..], txOut, txIn, j, block[j]);
      ghost var before := txBuf[..];
      txBuf[txIn + j] := block[j];
      assert txBuf[..] == before[txIn + j := block[j]];
    }

    /** Copy a block into the free slots while interrupts keep draining the ring. */
    method StoreBlock(block: seq<byte>)
      requires Valid() && txIn + |block| <= n && |block| + |TxRing()| < n
      modifies this, rxBuf, txBuf
      ensures Valid() && Interfered() && |TxRing()| <= old(|TxRing()|)
      ensures txBuf[txIn..txIn + |block|] == block
    {
      StoreBytes(block);
      Preempt();
    }

    method StoreBytes(block: seq<byte>)
      requires Valid() && txIn + |block| <= n && |block| + |TxRing()| < n
      modifies this, rxBuf, txBuf
      ensures Valid() && Interfered() && |TxRing()| <= old(|TxRing()|)
      ensures txBuf[txIn..txIn + |block|] == block
    {
      var j := 0;
      while j < |block|
        invariant Valid() && Interfered() && |TxRing()| <= old(|TxRing()|)
        invariant j <= |block|
        invariant txBuf[txIn..txIn + j] == block[..j]
      {
        StoreByte(block, j);
        j := j + 1;
      }
      assert block[..j] == block;
    }

    /** What a write leaves alone. */
    twostate predicate KeptByWrite()
      reads this
    {
      && Watched()
      && rxOut == old(rxOut) && timeout == old(timeout) && pie == old(pie)
      && delivered == old(delivered) && rxPending == old(rxPending)
      && old(hostSent) <= hostSent && old(popped) <= popped && old(sent) <= sent
    }

    /** Publish the bytes stored in the free slots: only now may the interrupt
        routine see them. */
    method Publish(ghost base: seq<byte>, ghost data: seq<byte>, ghost start: nat, ghost end: nat, k: nat)
      requires Valid() && start < end <= |data| && k == end - start && accepted == base + data[..start]
      requires txIn + k <= n && k + |TxRing()| < n
      requires txBuf[txIn..txIn + k] == data[start..end]
      modifies this`txIn, this`accepted, this`txPending
      ensures Valid() && txPending
      ensures accepted == base + data[..end]
    {
      AppendBlock(txBuf[..], txOut, txIn, data[start..end]);
      AppendHistory(accepted, sent, TxRing(), data[start..end]);
      AppendSlice(base, data, start, end);
      accepted := accepted + data[start..end];
      txIn := (txIn + k) % n;
      txPending := true;
    }

    /** Take a stable copy of the read index and work out how much room it leaves. */
    method FreeRun() returns (space: nat, rd: nat)
      requires Valid()
      modifies this, rxBuf
      ensures Valid() && Interfered() && rd == txOut
      ensures txIn + space <= n && space + |TxRing()| < n
      ensures space == 0 <==> |TxRing()| == n - 1
    {
      var wr := txIn;
      Preempt();
      rd := txOut;
      space := Space(n, rd, wr);
      SpaceIsFree(txBuf[..], rd, wr);
    }

    /** Copy a block into the free slots and publish it. */
    method Insert(ghost base: seq<byte>, data: seq<byte>, start: nat, end: nat)
      requires Valid() && start < end <= |data| && accepted == base + data[..start]
      requires txIn + (end - start) <= n && end - start + |TxRing()| < n
      modifies this, rxBuf, txBuf
      ensures Valid() && KeptByWrite() && txPending && waits == old(waits)
      ensures accepted == base + data[..end]
    {
      StoreBlock(data[start..end]);
      Publish(base, data, start, end, end - start);
    }

    /** One turn of the copy loop: store and publish a block of `data`, from `start`
        to at most `end`.  Nothing is stored only when the ring is full; `rd` is the
        read index the decision was based on. */
    method FillOnce(ghost base: seq<byte>, data: seq<byte>, start: nat, end: nat) returns (next: nat, rd: nat)
      requires Valid() && start < end <= |data| && accepted == base + data[..start]
      modifies this, rxBuf, txBuf
      ensures Valid() && KeptByWrite() && start <= next <= end && waits == old(waits)
      ensures accepted == base + data[..next]
      ensures txPending == (old(txPending) || next > start)
      ensures next == start ==> rd == txOut && |TxRing()| == n - 1
    {
      var k;
      k, rd := FreeRun();
      next := start + if k > end - start then end - start else k;
      if next > start {
        Insert(base, data, start, next);
      }
    }

    /** The copy loop of a write: it stops when everything is stored or the ring
        was seen full. */
    method FillLoop(ghost base: seq<byte>, data: seq<byte>, start: nat, end: nat) returns (ptr: nat, rd: nat)
      requires Valid() && start <= end <= |data| && accepted == base + data[..start]
      modifies this, rxBuf, txBuf
      ensures Valid() && KeptByWrite() && start <= ptr <= end && waits == old(waits)
      ensures accepted == base + data[..ptr]
      ensures txPending == (old(txPending) || ptr > start)
      ensures ptr < end ==> rd == txOut && |TxRing()| == n - 1
    {
      ptr, rd := start, 0;
      var last, room := start, true;
      while ptr < end && room
        invariant Valid() && KeptByWrite() && start <= ptr <= end && waits == old(waits)
        invariant accepted == base + data[..ptr]
        invariant txPending == (old(txPending) || ptr > start)
        invariant !room ==> rd == txOut && |TxRing()| == n - 1
        decreases end - ptr, room
      {
        last := ptr;
        ptr, rd := FillOnce(base, data, last, end);
        room := ptr != last;
      }
    }

    /** The copy loop fills at least the slots that were free at the start. */
    method Fill(ghost base: seq<byte>, data: seq<byte>, start: nat, end: nat) returns (ptr: nat, rd: nat)
      requires Valid() && start <= end <= |data| && accepted == base + data[..start]
      modifies this, rxBuf, txBuf
      ensures Valid() && KeptByWrite() && start <= ptr <= end && waits == old(waits)
      ensures accepted == base + data[..ptr]
      ensures txPending == (old(txPending) || ptr > start)
      ensures ptr >= Min(end, start + n - 1 - old(|TxRing()|))
      ensures ptr < end ==> rd == txOut == (txIn + 1) % n && |TxRing()| == n - 1
    {
      ptr, rd := FillLoop(base, data, start, end);
      assert |accepted| == old(|accepted|) + (ptr - start);
      FullTest(txBuf[..], txOut, txIn);
    }

    /** Turn interrupts off and tell whether they were on. */
    method DisableInterrupts() returns (context: bool)
      requires Valid()
      modifies this, rxBuf
      ensures Valid() && Kept() && waits == old(waits) && !pie && context == old(pie)
    {
      Preempt();
      context := pie;
      pie := false;
    }

    /** With interrupts off, set one enable bit, in the mask word first and then in
        the device; interrupts must not see the two differ. */
    method SetEnable(transmit: bool)
      requires Valid() && !pie
      modifies this, rxBuf
      ensures Valid() && Grown() && waits == old(waits) && !pie
      ensures device.enables == if transmit then old(device.enables).(we := true) else old(device.enables).(re := true)
      ensures txPending == (old(txPending) && !transmit) && rxPending == (old(rxPending) && transmit)
      ensures popped == old(popped) && sent == old(sent)
    {
      irqEnable := if transmit then irqEnable.(we := true) else irqEnable.(re := true);
      Interlude();
      CommitEnable(transmit);
    }

    method CommitEnable(transmit: bool)
      requires Shape()
      modifies this`device, this`rxPending, this`txPending
      ensures Shape() && device == old(device).(enables := irqEnable)
      ensures txPending == (old(txPending) && !transmit) && rxPending == (old(rxPending) && transmit)
    {
      IowrControl(irqEnable, false);
      if transmit {
        txPending := false;
      } else {
        rxPending := false;
      }
    }

    /** Turn the transmit interrupt on, with interrupts off around the update. */
    method EnableTransmit()
      requires Valid()
      modifies this, rxBuf
      ensures Valid() && KeptByWrite() && !txPending && device.enables.we && waits == old(waits)
      ensures txIn == old(txIn) && accepted == old(accepted)
    {
      var context := DisableInterrupts();
      SetEnable(true);
      pie := context;
    }

    /** Spin until the read index moves away from `rd` or the host counts as gone.
        `ended` is false when `polls` more looks after the first were not enough;
        the wait is still on then. */
    method AwaitDrain(rd: nat, polls: nat) returns (ended: bool)
      requires Valid()
      modifies this, rxBuf
      ensures Valid() && Interfered()
      ensures ended <==> txOut != rd || Gone()
    {
      var left := polls;
      while true
        invariant Valid() && Interfered()
        decreases left
      {
        Preempt();
        if txOut != rd || hostInactive >= timeout {
          return true;
        }
        if left == 0 {
          return false;
        }
        left := left - 1;
      }
    }

    /** One round of a write: fill the ring and kick the transmitter. */
    method Round(ghost base: seq<byte>, data: seq<byte>, start: nat, count: int) returns (ptr: nat, rd: nat)
      requires Valid() && Quiet() && count <= |data| && start <= |data| && accepted == base + data[..start]
      modifies this, rxBuf, txBuf
      ensures Valid() && Quiet() && KeptByWrite() && start <= ptr && (ptr == start || ptr <= count)
      ensures accepted == base + data[..ptr] && waits == old(waits)
      ensures ptr >= Min(count, start + n - 1 - old(|TxRing()|))
      ensures ptr < count ==> rd == (txIn + 1) % n
    {
      ptr, rd := Fill(base, data, start, if start < count then count else start);
      EnableTransmit();
    }

    /** Wait for room after a round that left the ring full.  A wait that ends leaves
        room, or the host counted as gone meanwhile. */
    method AwaitRoom(rd: nat, polls: nat) returns (ended: bool, inactive: bool)
      requires Valid() && rd == (txIn + 1) % n
      modifies this, rxBuf
      ensures Valid() && KeptByWrite() && txPending == old(txPending)
      ensures txIn == old(txIn) && accepted == old(accepted)
      ensures waits == old(waits) + if ended then 1 else 0
      ensures if ended then |TxRing()| < n - 1 || Gone() || comebacks > old(comebacks)
              else |TxRing()| == n - 1 && !Gone()
      ensures inactive == (ended && hostInactive != 0)
    {
      ended := AwaitDrain(rd, polls);
      FullTest(txBuf[..], txOut, txIn);
      inactive := false;
      if ended {
        Preempt();
        waits := waits + 1;
        inactive := hostInactive != 0;
      }
    }

    /** Wait for room and, unless the host is seen inactive, run another round.  One
        that stores nothing followed a wait during which the host was gone. */
    method WaitAndRetry(ghost base: seq<byte>, data: seq<byte>, start: nat, count: int, rd: nat, polls: nat)
      returns (ended: bool, inactive: bool, ptr: nat, rd': nat)
      requires Valid() && Quiet() && start < count <= |data| && accepted == base + data[..start]
      requires rd == (txIn + 1) % n
      modifies this, rxBuf, txBuf
      ensures Valid() && Quiet() && KeptByWrite() && start <= ptr <= count
      ensures accepted == base + data[..ptr]
      ensures waits == old(waits) + if ended then 1 else 0
      ensures !ended ==> !inactive && ptr == start && Blocked()
      ensures inactive ==> ptr == start && hostInactive != 0
      ensures ended && !inactive ==> ptr > start || comebacks > old(comebacks)
      ensures ended && !inactive && ptr < count ==> rd' == (txIn + 1) % n
    {
      ptr, rd' := start, rd;
      ended, inactive := AwaitRoom(rd, polls);
      if ended && !inactive {
        ptr, rd' := Round(base, data, start, count);
      }
    }

    /** The ring is full and the host present: a wait for room is on. */
    ghost predicate Blocked()
      requires Shape()
      reads this, txBuf
    {
      |TxRing()| == n - 1 && !Gone()
    }

    /** A wait and the round after it, with an allowance of rounds that store
        nothing; such a round uses one up, and with none left the model gives up. */
    method NextRound(ghost base: seq<byte>, data: seq<byte>, start: nat, count: int, rd: nat, polls: nat, left: nat)
      returns (ended: bool, inactive: bool, ptr: nat, rd': nat, left': nat)
      requires Valid() && Quiet() && start < count <= |data| && accepted == base + data[..start]
      requires rd == (txIn + 1) % n
      modifies this, rxBuf, txBuf
      ensures Valid() && Quiet() && KeptByWrite() && start <= ptr <= count
      ensures accepted == base + data[..ptr]
      ensures waits - old(waits) <= ptr - start + comebacks - old(comebacks) + if inactive then 1 else 0
      ensures left' <= left <= left' + comebacks - old(comebacks)
      ensures inactive ==> ended && ptr == start && hostInactive != 0
      ensures ended && !inactive && ptr < count ==> rd' == (txIn + 1) % n
      ensures ended && !inactive ==> ptr > start || left' < left
      ensures !ended ==> ptr == start && (Blocked() || (left' == 0 && comebacks - old(comebacks) > left))
    {
      ended, inactive, ptr, rd' := WaitAndRetry(base, data, start, count, rd, polls);
      left' := left;
      if ended && !inactive && ptr == start {
        ended := left > 0;
        left' := if left > 0 then left - 1 else 0;
      }
    }

    /** The later rounds of a blocking write, each after a wait.  Every wait but one
        that saw the host inactive is followed by a byte stored or by the return of
        a host that was gone; more than `polls` such returns without a byte end the
        model's patience. */
    method Rounds(ghost base: seq<byte>, data: seq<byte>, start: nat, count: int, first: nat, polls: nat)
      returns (ptr: nat, ended: bool, inactive: bool)
      requires Valid() && Quiet() && start < count <= |data| && accepted == base + data[..start]
      requires first == (txIn + 1) % n
      modifies this, rxBuf, txBuf
      ensures Valid() && Quiet() && KeptByWrite()
      ensures start <= ptr <= count && accepted == base + data[..ptr]
      ensures waits - old(waits) <= ptr - start + comebacks - old(comebacks) + if inactive then 1 else 0
      ensures ended && !inactive ==> ptr == count
      ensures !ended ==> !inactive && ptr < count && (Blocked() || comebacks > old(comebacks) + polls)
      ensures inactive ==> ptr < count && hostInactive != 0
    {
      var rd: nat, left: nat := first, polls;
      ptr, ended, inactive := start, true, false;
      while ptr < count && ended && !inactive
        invariant Valid() && Quiet() && KeptByWrite()
        invariant start <= ptr <= count && accepted == base + data[..ptr]
        invariant waits - old(waits) <= ptr - start + comebacks - old(comebacks) + if inactive then 1 else 0
        invariant left <= polls <= left + comebacks - old(comebacks)
        invariant ptr < count && ended && !inactive ==> rd == (txIn + 1) % n
        invariant !ended ==> !inactive && ptr < count && (Blocked() || comebacks > old(comebacks) + polls)
        invariant inactive ==> ptr < count && hostInactive != 0
        decreases count - ptr + left, ended && !inactive
      {
        ended, inactive, ptr, rd, left := NextRound(base, data, ptr, count, rd, polls, left);
      }
    }

    /** The rounds of a write. */
    method Transfer(data: seq<byte>, count: int, nonblock: bool, polls: nat)
      returns (ptr: nat, ended: bool, inactive: bool)
      requires Valid() && Quiet() && count <= |data|
      modifies this, rxBuf, txBuf
      ensures Valid() && Quiet() && KeptByWrite()
      ensures (ptr == 0 || ptr <= count) && accepted == old(accepted) + data[..ptr]
      ensures ptr >= Min(count, n - 1 - old(|TxRing()|))
      ensures waits - old(waits) <= ptr + comebacks - old(comebacks) + if inactive then 1 else 0
      ensures ended && !inactive && !nonblock ==> ptr >= count
      ensures !ended ==> !nonblock && ptr < count && (Blocked() || comebacks > old(comebacks) + polls)
      ensures inactive ==> !nonblock && hostInactive != 0
    {
      ghost var base := accepted;
      var rd: nat;
      ptr, rd := Round(base, data, 0, count);
      ended, inactive := true, false;
      if ptr < count && !nonblock {
        ptr, ended, inactive := Rounds(base, data, ptr, count, rd, polls);
      }
    }

    /** Write `count` bytes of `data`, blocking unless `nonblock`.  A blocking write
        that ends has written everything or leaves with the host inactive; one that
        is cut short after `polls` looks is in a wait that is still on, or saw the
        host go and come back more than `polls` times.  The waits are no more than
        the bytes written, the returns of the host, and a last one that found it
        inactive. */
    method Write(data: seq<byte>, count: int, nonblock: bool, polls: nat) returns (r: Outcome)
      requires Valid() && Quiet() && count <= |data|
      modifies this, rxBuf, txBuf
      ensures Valid() && Quiet() && KeptByWrite()
      ensures r.Moved() <= |data| && accepted == old(accepted) + data[..r.Moved()]
      ensures r.Bytes? ==> 0 < r.n <= count
      ensures r.Failed? ==> r.error == if nonblock then EWOULDBLOCK else EIO
      ensures count <= 0 ==> r.Failed?
      ensures r.Moved() >= Min(count, n - 1 - old(|TxRing()|))
      ensures !nonblock && count >= 1 && !r.Spinning? ==> r == Bytes(count) || hostInactive != 0
      ensures r.Spinning? ==> !nonblock && r.partial < count && (Blocked() || comebacks > old(comebacks) + polls)
      ensures waits - old(waits) <= r.Moved() + comebacks - old(comebacks) + if hostInactive != 0 then 1 else 0
    {
      var ptr, ended, inactive := Transfer(data, count, nonblock, polls);
      if !ended {
        r := Spinning(ptr);
      } else if ptr != 0 {
        r := Bytes(ptr);
      } else {
        r := Failed(if nonblock then EWOULDBLOCK else EIO);
      }
    }

    // ----- foreground: receive ---------------------------------------------

    /** What a read leaves alone. */
    twostate predicate KeptByRead()
      reads this
    {
      && Watched()
      && txIn == old(txIn) && timeout == old(timeout) && pie == old(pie)
      && accepted == old(accepted) && txPending == old(txPending)
      && old(hostSent) <= hostSent && old(popped) <= popped && old(sent) <= sent
    }

    /** Let interrupts in; unread bytes stay where they are and more may follow. */
    method PreemptReader()
      requires Valid()
      modifies this, rxBuf
      ensures Valid() && Interfered() && old(RxRing()) <= RxRing()
      ensures Run(n, rxOut, rxIn) >= old(Run(n, rxOut, rxIn))
    {
      Preempt();
      assert delivered + old(RxRing()) <= delivered + RxRing();
      CancelPrefix(delivered, old(RxRing()), RxRing());
    }

    /** Copy the next byte of the ring to the caller's buffer. */
    method LoadByte(buffer: array<byte>, start: nat, j: nat)
      requires Valid() && start + j < buffer.Length && buffer != rxBuf && buffer != txBuf
      requires j < Run(n, rxOut, rxIn)
      requires buffer[start..start + j] == RxRing()[..j]
      modifies this, rxBuf, buffer
      ensures Valid() && Interfered() && old(RxRing()) <= RxRing()
      ensures Run(n, rxOut, rxIn) >= old(Run(n, rxOut, rxIn))
      ensures buffer[start..start + j + 1] == RxRing()[..j + 1]
      ensures buffer[..start] == old(buffer[..start])
    {
      PreemptReader();
      assert buffer[start..start + j] == RxRing()[..j];
      RunElement(rxBuf[..], rxOut, rxIn, j);
      ghost var before := buffer[..];
      buffer[start + j] := rxBuf[rxOut + j];
      assert buffer[..] == before[start + j := RxRing()[j]];
    }

    /** Copy the oldest `k` bytes of the ring to `buffer` from `start` on, while
        interrupts keep filling the ring. */
    method LoadBlock(buffer: array<byte>, start: nat, k: nat)
      requires Valid() && start + k <= buffer.Length && buffer != rxBuf && buffer != txBuf
      requires k <= Run(n, rxOut, rxIn)
      modifies this, rxBuf, buffer
      ensures Valid() && Interfered() && old(RxRing()) <= RxRing()
      ensures k <= Run(n, rxOut, rxIn) && k <= |RxRing()|
      ensures buffer[start..start + k] == RxRing()[..k]
      ensures buffer[..start] == old(buffer[..start])
    {
      var j := 0;
      while j < k
        invariant Valid() && Interfered() && old(RxRing()) <= RxRing()
        invariant j <= k <= Run(n, rxOut, rxIn)
        invariant buffer[start..start + j] == RxRing()[..j]
        invariant buffer[..start] == old(buffer[..start])
      {
        LoadByte(buffer, start, j);
        j := j + 1;
      }
    }

    /** Release the `k` bytes copied to the caller. */
    method Commit(ghost base: seq<byte>, buffer: array<byte>, ghost start: nat, k: nat)
      requires Valid() && start + k <= buffer.Length && buffer != rxBuf && buffer != txBuf
      requires 0 < k <= Run(n, rxOut, rxIn) && k <= |RxRing()|
      requires delivered == base + buffer[..start] && buffer[start..start + k] == RxRing()[..k]
      modifies this`rxOut, this`delivered, this`rxPending
      ensures Valid() && rxPending
      ensures delivered == base + buffer[..start + k]
    {
      TakeBlock(rxBuf[..], rxOut, rxIn, k);
      SplitHistory(delivered, RxRing(), k);
      AppendSlice(base, buffer[..], start, start + k);
      delivered := delivered + RxRing()[..k];
      rxOut := (rxOut + k) % n;
      rxPending := true;
    }

    /** Take a stable copy of the write index and work out what can be copied in
        one piece. */
    method AvailableRun() returns (k: nat, wr: nat)
      requires Valid()
      modifies this, rxBuf
      ensures Valid() && Interfered() && wr == rxIn && k == Run(n, rxOut, rxIn)
      ensures old(|RxRing()|) <= |RxRing()|
      ensures k == 0 ==> rxOut == wr
    {
      PreemptReader();
      wr := rxIn;
      var rd := rxOut;
      k := Run(n, rd, wr);
    }

    /** Copy and release a block. */
    method Extract(ghost base: seq<byte>, buffer: array<byte>, start: nat, k: nat)
      requires Valid() && start + k <= buffer.Length && buffer != rxBuf && buffer != txBuf
      requires 0 < k <= Run(n, rxOut, rxIn) && delivered == base + buffer[..start]
      modifies this, rxBuf, buffer
      ensures Valid() && KeptByRead() && rxPending && waits == old(waits)
      ensures delivered == base + buffer[..start + k]
    {
      LoadBlock(buffer, start, k);
      Commit(base, buffer, start, k);
    }

    /** One turn of the copy loop; nothing is copied only when the ring is empty. */
    method DrainOnce(ghost base: seq<byte>, buffer: array<byte>, start: nat, space: nat) returns (k: nat, wr: nat)
      requires Valid() && 0 < space <= buffer.Length - start && buffer != rxBuf && buffer != txBuf
      requires delivered == base + buffer[..start]
      modifies this, rxBuf, buffer
      ensures Valid() && KeptByRead() && k <= space && waits == old(waits)
      ensures delivered == base + buffer[..start + k]
      ensures rxPending == (old(rxPending) || k > 0)
      ensures k == 0 ==> wr == rxOut && |RxRing()| == 0
    {
      k, wr := AvailableRun();
      if k > 0 {
        k := if k > space then space else k;
        Extract(base, buffer, start, k);
      }
    }

    /** The copy loop of a read: it stops when the buffer is full or the ring was
        seen empty. */
    method Drain(ghost base: seq<byte>, buffer: array<byte>, space: nat) returns (k: nat, wr: nat)
      requires Valid() && space <= buffer.Length && buffer != rxBuf && buffer != txBuf
      requires delivered == base
      modifies this, rxBuf, buffer
      ensures Valid() && KeptByRead() && k <= space && waits == old(waits)
      ensures delivered == base + buffer[..k]
      ensures rxPending == (old(rxPending) || k > 0)
      ensures k >= Min(space, old(|RxRing()|))
      ensures k < space ==> wr == rxOut == rxIn && RxRing() == []
    {
      k, wr := 0, 0;
      var step := 1;
      while k < space && step > 0
        invariant Valid() && KeptByRead() && k <= space && waits == old(waits)
        invariant delivered == base + buffer[..k]
        invariant rxPending == (old(rxPending) || k > 0)
        invariant step == 0 ==> wr == rxOut && |RxRing()| == 0
        decreases space - k, step
      {
        step, wr := DrainOnce(base, buffer, k, space - k);
        k := k + step;
      }
    }

    /** Turn the receive interrupt on, with interrupts off around the update. */
    method EnableReceive()
      requires Valid()
      modifies this, rxBuf
      ensures Valid() && KeptByRead() && !rxPending && device.enables.re && waits == old(waits)
      ensures rxOut == old(rxOut) && delivered == old(delivered)
    {
      var context := DisableInterrupts();
      SetEnable(false);
      pie := context;
    }

    /** Spin until the write index moves away from `wr` or the host counts as gone.
        When `polls` more looks after the first were not enough the wait is still
        on. */
    method WatchData(wr: nat, polls: nat) returns (ended: bool)
      requires Valid()
      modifies this, rxBuf
      ensures Valid() && Interfered() && old(|RxRing()|) <= |RxRing()|
      ensures ended <==> rxIn != wr || Gone()
    {
      var left := polls;
      PreemptReader();
      while rxIn == wr && hostInactive < timeout
        invariant Valid() && Interfered() && old(|RxRing()|) <= |RxRing()|
        decreases left
      {
        if left == 0 {
          return false;
        }
        left := left - 1;
        PreemptReader();
      }
      ended := true;
    }

    /** Wait and look again: `arrived` tells whether there is something to read. */
    method AwaitData(wr: nat, polls: nat) returns (ended: bool, arrived: bool)
      requires Valid() && wr == rxOut == rxIn
      modifies this, rxBuf
      ensures Valid() && KeptByRead() && rxOut == old(rxOut) && delivered == old(delivered)
      ensures rxPending == old(rxPending) && waits == old(waits) + if ended then 1 else 0
      ensures !ended ==> !arrived && Starved()
      ensures arrived <==> RxRing() != []
      ensures ended && !arrived ==> Gone() || comebacks > old(comebacks)
    {
      arrived := false;
      ended := WatchData(wr, polls);
      if ended {
        PreemptReader();
        arrived := rxIn != wr;
        waits := waits + 1;
      }
    }

    /** The ring is empty and the host present: a wait for data is on. */
    ghost predicate Starved()
      requires Shape()
      reads this, rxBuf
    {
      RxRing() == [] && !Gone()
    }

    /** The rounds of a read: there is at most one wait, and a round after it runs
        only when something arrived, and then finds it. */
    method Collect(buffer: array<byte>, space: nat, nonblock: bool, polls: nat)
      returns (k: nat, ended: bool)
      requires Valid() && Quiet() && 0 < space <= buffer.Length && buffer != rxBuf && buffer != txBuf
      modifies this, rxBuf, buffer
      ensures Valid() && KeptByRead() && rxPending == (k > 0) && k <= space
      ensures delivered == old(delivered) + buffer[..k]
      ensures k >= Min(space, old(|RxRing()|))
      ensures waits <= old(waits) + if nonblock || !ended then 0 else 1
      ensures !nonblock && k == 0 && ended ==> Gone() || comebacks > old(comebacks)
      ensures !ended ==> !nonblock && k == 0 && Starved()
    {
      ghost var base, first := delivered, true;
      var wr: nat;
      var again := true;
      k, ended := 0, true;
      while again
        invariant Valid() && KeptByRead() && rxPending == (k > 0) && k <= space
        invariant delivered == base + buffer[..k]
        invariant first ==> again && waits == old(waits) && old(|RxRing()|) <= |RxRing()|
        invariant !first && again ==> RxRing() != [] && !nonblock
        invariant !first ==> k >= Min(space, old(|RxRing()|))
        invariant again ==> k == 0 && ended
        invariant waits <= old(waits) + if nonblock || !ended then 0 else 1
        invariant !again && !nonblock && k == 0 && ended ==> Gone() || comebacks > old(comebacks)
        invariant !ended ==> !nonblock && k == 0 && Starved()
        decreases again, first
      {
        k, wr := Drain(base, buffer, space);
        again := false;
        if k == 0 && !nonblock {
          ended, again := AwaitData(wr, polls);
        }
        first := false;
      }
    }

    /** Read at most `space` bytes into `buffer`, blocking unless `nonblock` until
        there is something to read or the host counts as gone.  A read that is cut
        short after `polls` looks is in a wait that is still on. */
    method Read(buffer: array<byte>, space: int, nonblock: bool, polls: nat) returns (r: Outcome)
      requires Valid() && Quiet() && space <= buffer.Length && buffer != rxBuf && buffer != txBuf
      modifies this, rxBuf, buffer
      ensures Valid() && Quiet() && KeptByRead()
      ensures r.Moved() <= buffer.Length && delivered == old(delivered) + buffer[..r.Moved()]
      ensures r.Bytes? ==> 0 < r.n <= space
      ensures r.Failed? ==> r.error == if nonblock then EWOULDBLOCK else EIO
      ensures space <= 0 ==> r.Failed?
      ensures r.Moved() >= Min(space, old(|RxRing()|))
      ensures !nonblock && space >= 1 && r.Failed? ==> Gone() || comebacks > old(comebacks)
      ensures r.Spinning? ==> !nonblock && r.partial == 0 && Starved()
      ensures waits <= old(waits) + if nonblock || r.Spinning? then 0 else 1
    {
      var k: nat, ended := 0, true;
      if space > 0 {
        k, ended := Collect(buffer, space, nonblock, polls);
      }
      if k > 0 {
        EnableReceive();
        r := Bytes(k);
      } else if !ended {
        r := Spinning(0);
      } else {
        r := Failed(if nonblock then EWOULDBLOCK else EIO);
      }
    }

    // ----- foreground: close, ioctl, initialisation -------------------------

    /** Wait for the transmit ring to drain. Success means that everything ever
        accepted reached the device, or that the host counts as gone. */
    method Close(nonblock: bool, polls: nat) returns (r: Outcome)
      requires Valid() && Quiet()
      modifies this, rxBuf
      ensures Valid() && Quiet() && Interfered()
      ensures r == Bytes(0) ==> sent == accepted || hostInactive >= timeout
      ensures r.Failed? ==> nonblock && r.error == EWOULDBLOCK && sent != accepted
      ensures r == Bytes(0) || r.Failed? || r == Spinning(0)
      ensures r.Spinning? ==> !nonblock && sent != accepted && !Gone()
    {
      var left := polls;
      while true
        invariant Valid() && Interfered()
        decreases left
      {
        Preempt();
        if txOut == txIn || hostInactive >= timeout {
          assert txOut == txIn ==> sent == accepted;
          return Bytes(0);
        }
        assert |TxRing()| > 0;
        if nonblock {
          return Failed(EWOULDBLOCK);
        }
        if left == 0 {
          return Spinning(0);
        }
        left := left - 1;
      }
    }

    /** Set the timeout, or ask whether the host is connected.  A driver whose
        alarm could not be started has timeout INT_MAX for good. */
    method Ioctl(req: Request) returns (error: bool, connected: bool)
      requires Valid()
      modifies this`timeout
      ensures Valid()
      ensures error <==> req.Other? || old(timeout) == INT_MAX
      ensures timeout == if req.SetTimeout? && old(timeout) != INT_MAX then
                           (if 2 <= req.value < INT_MAX then req.value else INT_MAX - 1)
                         else old(timeout)
      ensures req.GetConnected? && !error ==> (connected <==> hostInactive < timeout)
      ensures timeout >= INT_MAX - 1 ==> !Gone()
    {
      error, connected := true, false;
      match req
      case SetTimeout(value) =>
        if timeout != INT_MAX {
          timeout := if 2 <= value < INT_MAX then value else INT_MAX - 1;
          error := false;
        }
      case GetConnected =>
        if timeout != INT_MAX {
          connected := hostInactive < timeout;
          error := false;
        }
      case Other =>
    }

    /** Bring the driver up on a device in an arbitrary state.  `alarmStarted`
        tells whether the timeout alarm could be registered. */
    constructor (size: nat, uart: Device, interruptsOn: bool, alarmStarted: bool)
      requires size >= 2
      ensures Valid() && Quiet() && fresh(rxBuf) && fresh(txBuf) && n == size
      ensures hostSent == uart.fifo && popped == delivered == accepted == sent == []
      ensures device.enables == Enables(true, false) && pie == interruptsOn
      ensures timeout == (if alarmStarted then DEFAULT_TIMEOUT else INT_MAX) && hostInactive == 0 && idle == 0
    {
      n := size;
      rxBuf := new byte[size](_ => 0);
      txBuf := new byte[size](_ => 0);
      rxIn, rxOut, txIn, txOut := 0, 0, 0, 0;
      irqEnable := Enables(true, false);
      device := uart.(enables := Enables(true, false));
      hostInactive := 0;
      timeout := if alarmStarted then DEFAULT_TIMEOUT else INT_MAX;
      pie := interruptsOn;
      hostSent, popped, delivered, accepted, sent := uart.fifo, [], [], [], [];
      rxPending, txPending, idle, comebacks, waits, controls := false, false, 0, 0, 0, [];
    }
  }

  // ----- whole sessions ------------------------------------------------------

  datatype Call =
    | ReadCall(space: nat, nonblock: bool, polls: nat)
    | WriteCall(data: seq<byte>, nonblock: bool, polls: nat)
    | CloseCall(nonblock: bool, polls: nat)
    | IoctlCall(request: Request)

  /** What a call returns; a read also leaves its bytes in the caller's buffer. */
  datatype Reply =
    | ReadReply(outcome: Outcome, bytes: seq<byte>)
    | WriteReply(outcome: Outcome)
    | CloseReply(outcome: Outcome)
    | IoctlReply(error: bool, connected: bool)
  {
    predicate CutShort() {
      !IoctlReply? && outcome.Spinning?
    }
  }

  /** The bytes that a call took from the driver or gave to it. */
  function Received(reply: Reply): seq<byte> {
    if reply.ReadReply? then reply.bytes else []
  }

  function Written(call: Call, reply: Reply): seq<byte> {
    if call.WriteCall? && reply.WriteReply? && reply.outcome.Moved() <= |call.data|
    then call.data[..reply.outcome.Moved()] else []
  }

  /** All the bytes the reads of a session returned, and all the bytes its writes
      reported as written. */
  function AllReceived(replies: seq<Reply>): seq<byte> {
    if replies == [] then []
    else AllReceived(replies[..|replies| - 1]) + Received(replies[|replies| - 1])
  }

  function AllWritten(script: seq<Call>, replies: seq<Reply>): seq<byte>
    requires |replies| <= |script|
  {
    if replies == [] then []
    else
      var i := |replies| - 1;
      AllWritten(script, replies[..i]) + Written(script[i], replies[i])
  }

  lemma AllReceivedSnoc(replies: seq<Reply>, reply: Reply)
    ensures AllReceived(replies + [reply]) == AllReceived(replies) + Received(reply)
  {
    assert (replies + [reply])[..|replies|] == replies;
  }

  lemma AllWrittenSnoc(script: seq<Call>, replies: seq<Reply>, reply: Reply)
    requires |replies| < |script|
    ensures AllWritten(script, replies + [reply])
         == AllWritten(script, replies) + Written(script[|replies|], reply)
  {
    assert (replies + [reply])[..|replies|] == replies;
  }

  /** How a transfer of up to `count` bytes may end; with the host `present`
      throughout, a blocking one does not fail. */
  predicate Ends(r: Outcome, count: nat, nonblock: bool, present: bool) {
    && r.Moved() <= count
    && (r.Bytes? ==> r.n > 0)
    && (r.Failed? ==> r.error == if nonblock then EWOULDBLOCK else EIO)
    && (count == 0 ==> r.Failed?)
    && (r.Spinning? ==> !nonblock && r.partial < count)
    && (present && !nonblock && count > 0 ==> !r.Failed?)
  }

  /** Whether a reply is one the call may give, on a ring of `size` slots with at
      most `pending` accepted bytes still in it.  `present` tells that no second has
      passed without host activity, `alarm` that the timeout alarm is running. */
  predicate Answers(size: nat, pending: nat, call: Call, reply: Reply, present: bool, alarm: bool) {
    match call
    case ReadCall(space, nonblock, _) =>
      && reply.ReadReply? && |reply.bytes| == reply.outcome.Moved()
      && Ends(reply.outcome, space, nonblock, present)
    case WriteCall(data, nonblock, _) =>
      && reply.WriteReply?
      && Ends(reply.outcome, |data|, nonblock, present)
      && reply.outcome.Moved() >= Min(|data|, size - 1 - pending)
      && (present && !nonblock && data != [] && !reply.outcome.Spinning? ==> reply.outcome == Bytes(|data|))
    case CloseCall(nonblock, _) =>
      && reply.CloseReply?
      && reply.outcome in {Bytes(0), if nonblock then Failed(EWOULDBLOCK) else Spinning(0)}
    case IoctlCall(request) =>
      && reply.IoctlReply? && (reply.error <==> request.Other? || !alarm)
      && (present && request.GetConnected? && alarm ==> reply.connected)
  }

  /** The wait that a call was cut short in is still on, unless the host came and
      went all the time. */
  ghost predicate StillWaiting(u: Uart, call: Call)
    requires u.Shape()
    reads u, u.rxBuf, u.txBuf
  {
    match call
    case ReadCall(_, _, _) => u.Starved()
    case WriteCall(_, _, polls) => u.Blocked() || u.comebacks > polls
    case CloseCall(_, _) => u.sent != u.accepted && !u.Gone()
    case IoctlCall(_) => false
  }

  /** Make one call. */
  method Perform(u: Uart, call: Call) returns (reply: Reply)
    requires u.Valid() && u.Quiet()
    modifies u, u.rxBuf, u.txBuf
    ensures u.Valid() && u.Quiet()
    ensures u.idle >= old(u.idle) && old(u.sent) <= u.sent
    ensures u.timeout == INT_MAX <==> old(u.timeout) == INT_MAX
    ensures Answers(u.n, old(|u.TxRing()|), call, reply, u.idle == 0, old(u.timeout) != INT_MAX)
    ensures u.delivered == old(u.delivered) + Received(reply)
    ensures u.accepted == old(u.accepted) + Written(call, reply)
    ensures reply.CloseReply? && reply.outcome == Bytes(0) && u.idle == 0 ==> u.sent == u.accepted
    ensures reply.CutShort() ==> StillWaiting(u, call)
  {
    match call
    case ReadCall(space, nonblock, polls) =>
      var buffer := new byte[space](_ => 0);
      var r := u.Read(buffer, space, nonblock, polls);
      reply := ReadReply(r, buffer[..r.Moved()]);
    case WriteCall(data, nonblock, polls) =>
      var r := u.Write(data, |data|, nonblock, polls);
      reply := WriteReply(r);
    case CloseCall(nonblock, polls) =>
      var r := u.Close(nonblock, polls);
      reply := CloseReply(r);
    case IoctlCall(request) =>
      var error, connected := u.Ioctl(request);
      reply := IoctlReply(error, connected);
  }

  /** Each reply is one its call may give, only the last call may be cut short, and a
      successful close with the host present had everything sent: what was written
      before it is part of `sent`. */
  predicate Replied(size: nat, script: seq<Call>, replies: seq<Reply>, present: bool, alarm: bool, sent: seq<byte>)
    requires |replies| <= |script|
  {
    replies == [] ||
    var i := |replies| - 1;
    var before := AllWritten(script, replies[..i]);
    && Replied(size, script, replies[..i], present, alarm, sent)
    && (i > 0 ==> !replies[i - 1].CutShort())
    && Answers(size, |before|, script[i], replies[i], present, alarm)
    && (present && replies[i] == CloseReply(Bytes(0)) ==> before <= sent)
  }

  lemma {:induction false} RepliedLater(size: nat, script: seq<Call>, replies: seq<Reply>, present: bool,
                                        present': bool, alarm: bool, sent: seq<byte>, sent': seq<byte>)
    requires |replies| <= |script| && Replied(size, script, replies, present, alarm, sent)
    requires (present' ==> present) && sent <= sent'
    ensures Replied(size, script, replies, present', alarm, sent')
  {
    if replies != [] {
      RepliedLater(size, script, replies[..|replies| - 1], present, present', alarm, sent, sent');
    }
  }

  lemma RepliedSnoc(size: nat, script: seq<Call>, replies: seq<Reply>, reply: Reply, present: bool,
                    alarm: bool, sent: seq<byte>, pending: nat)
    requires |replies| < |script| && Replied(size, script, replies, present, alarm, sent)
    requires replies != [] ==> !replies[|replies| - 1].CutShort()
    requires Answers(size, pending, script[|replies|], reply, present, alarm)
    requires pending <= |AllWritten(script, replies)|
    requires present && reply == CloseReply(Bytes(0)) ==> AllWritten(script, replies) <= sent
    ensures Replied(size, script, replies + [reply], present, alarm, sent)
  {
    assert (replies + [reply])[..|replies|] == replies;
  }

  /** What a session has reached after the calls it made. */
  ghost predicate Reached(u: Uart, script: seq<Call>, replies: seq<Reply>, alarm: bool)
    reads u
  {
    && |replies| <= |script|
    && Replied(u.n, script, replies, u.idle == 0, alarm, u.sent)
    && AllReceived(replies) == u.delivered && AllWritten(script, replies) == u.accepted
    && (u.timeout == INT_MAX <==> !alarm)
  }

  predicate Stopped(replies: seq<Reply>) {
    replies != [] && replies[|replies| - 1].CutShort()
  }

  /** Make the next call of a script. */
  method Step(u: Uart, script: seq<Call>, replies: seq<Reply>, ghost alarm: bool) returns (replies': seq<Reply>)
    requires u.Valid() && u.Quiet() && Reached(u, script, replies, alarm)
    requires |replies| < |script| && !Stopped(replies)
    modifies u, u.rxBuf, u.txBuf
    ensures u.Valid() && u.Quiet() && Reached(u, script, replies', alarm)
    ensures |replies'| == |replies| + 1
    ensures Stopped(replies') ==> StillWaiting(u, script[|replies|])
  {
    ghost var present, sent, pending := u.idle == 0, u.sent, |u.TxRing()|;
    var reply := Perform(u, script[|replies|]);
    RepliedLater(u.n, script, replies, present, u.idle == 0, alarm, sent, u.sent);
    RepliedSnoc(u.n, script, replies, reply, u.idle == 0, alarm, u.sent, pending);
    AllReceivedSnoc(replies, reply);
    AllWrittenSnoc(script, replies, reply);
    replies' := replies + [reply];
  }

  /** Any script of driver calls, interrupted anywhere.  What the reads returned,
      followed by the receive ring and the receive FIFO, is exactly what the host
      typed, and what the writes reported is what reached the device followed by
      the transmit ring.  The script ends early only at a call whose wait is still
      on. */
  method Session(size: nat, device: Device, interruptsOn: bool, alarmStarted: bool, script: seq<Call>)
    returns (u: Uart, replies: seq<Reply>)
    requires size >= 2
    ensures u.Valid() && u.Quiet() && u.n == size
    ensures |replies| <= |script| && Replied(size, script, replies, u.idle == 0, alarmStarted, u.sent)
    ensures |replies| < |script| ==> Stopped(replies)
    ensures Stopped(replies) ==> StillWaiting(u, script[|replies| - 1])
    ensures u.hostSent == AllReceived(replies) + u.RxRing() + u.device.fifo
    ensures AllWritten(script, replies) == u.sent + u.TxRing()
    ensures |u.RxRing()| < size - 1 ==> u.device.enables.re
    ensures u.TxRing() != [] ==> u.device.enables.we
  {
    u := new Uart(size, device, interruptsOn, alarmStarted);
    replies := [];
    while |replies| < |script| && !Stopped(replies)
      invariant fresh(u) && fresh(u.rxBuf) && fresh(u.txBuf) && u.n == size
      invariant u.Valid() && u.Quiet() && Reached(u, script, replies, alarmStarted)
      invariant Stopped(replies) ==> StillWaiting(u, script[|replies| - 1])
      decreases |script| - |replies|
    {
      replies := Step(u, script, replies, alarmStarted);
    }
  }
}
