/** The file descriptor pool as a value: what each system call does to it, and
    which properties every sequence of calls keeps. */
module FdPool {
  import opened Words

  const ALT_MAX_FD: nat := 32

  /** A flag word, as the set of the numbers of its bits: `*` is the bitwise and,
      `+` the bitwise or, and `-` the and with a complement. */
  type Word = set<nat>

  /** 0x80000000 and 0x40000000. */
  const ALT_FD_EXCL: Word := {31}
  const ALT_FD_DEV: Word := {30}
  const ALT_FD_FLAGS_MASK: Word := ALT_FD_EXCL + ALT_FD_DEV

  /** O_APPEND and O_NONBLOCK of the C library, 0x8 and 0x4000. */
  const ALT_FCNTL_FLAGS_MASK: Word := {3, 14}

  /** What a name can resolve to: the device list and the file system list hold
      different entries. */
  datatype Target = Device(id: nat) | FileSystem(id: nat)

  datatype Slot = Slot(dev: Option<Target>, priv: nat, flags: Word)
  {
    predicate Exclusive() {
      flags * ALT_FD_EXCL != {}
    }

    predicate OnDevice() {
      flags * ALT_FD_DEV != {}
    }
  }

  datatype Errno = EACCES | EMFILE | ENODEV | EBADFD | EINVAL | ENOTTY | Driver(code: int)

  datatype Result = Value(value: int) | Flags(bits: Word) | Error(errno: Errno)

  datatype Request = TIOCEXCL | TIOCNXCL | OtherRequest

  datatype Command = F_GETFL | F_SETFL(arg: Word) | OtherCommand

  datatype Pool = Pool(slots: seq<Slot>, maxFd: int)

  predicate Shape(p: Pool) {
    |p.slots| == ALT_MAX_FD && -1 <= p.maxFd < ALT_MAX_FD
  }

  predicate Refers(s: Slot, other: Slot) {
    s.dev == other.dev
  }

  const NULL_DEVICE := Device(0)

  /** The pool before main: the three standard streams on the null device. */
  function Initial(): Pool {
    Pool(seq(ALT_MAX_FD, i => Slot(if i < 3 then Some(NULL_DEVICE) else None, 0, {})), -1)
  }

  // ----- the calls --------------------------------------------------------

  /** The lowest free slot from `i` on, or the pool size. */
  function FirstFree(slots: seq<Slot>, i: nat): (k: nat)
    requires i <= |slots|
    ensures i <= k <= |slots|
    ensures forall j :: i <= j < k ==> slots[j].dev.Some?
    ensures k < |slots| ==> slots[k].dev.None?
    decreases |slots| - i
  {
    if i == |slots| || slots[i].dev.None? then i else FirstFree(slots, i + 1)
  }

  function SetSlot(p: Pool, fd: nat, s: Slot): (r: Pool)
    requires Shape(p) && fd < ALT_MAX_FD
    ensures Shape(r)
  {
    p.(slots := p.slots[fd := s])
  }

  /** Take the lowest free slot for `target`. */
  function GetFd(p: Pool, target: Target): (r: (Pool, Result))
    requires Shape(p)
    ensures Shape(r.0)
    ensures r.1.Value? || r.1.Error?
    ensures r.1.Value? ==> 0 <= r.1.value < ALT_MAX_FD && r.1.value <= r.0.maxFd
  {
    var i := FirstFree(p.slots, 0);
    if i == ALT_MAX_FD then (p, Error(EMFILE))
    else (SetSlot(p, i, p.slots[i].(dev := Some(target))).(maxFd := if i > p.maxFd then i else p.maxFd), Value(i))
  }

  /** Free a slot; the standard streams are never freed. */
  function ReleaseFd(p: Pool, fd: int): (r: Pool)
    requires Shape(p) && fd < ALT_MAX_FD
    ensures Shape(r)
  {
    if fd > 2 then SetSlot(p, fd, p.slots[fd].(flags := {}, dev := None)) else p
  }

  /** Whether another descriptor up to the high-water mark holds the device of
      `fd` exclusively. */
  predicate Locked(p: Pool, fd: nat)
    requires Shape(p) && fd < ALT_MAX_FD
  {
    exists i :: 0 <= i <= p.maxFd && i != fd && Refers(p.slots[i], p.slots[fd]) && p.slots[i].Exclusive()
  }

  /** Whether another descriptor below the high-water mark refers to the device
      of `fd`. */
  predicate Shared(p: Pool, fd: nat)
    requires Shape(p) && fd < ALT_MAX_FD
  {
    exists i :: 0 <= i < p.maxFd && i != fd && Refers(p.slots[i], p.slots[fd])
  }

  /** Open whatever the name resolved to. `status` is what the driver's own open
      returns; 0 stands for a driver without one. */
  function Open(p: Pool, target: Option<Target>, flags: Word, status: int): (r: (Pool, Result))
    requires Shape(p)
    ensures Shape(r.0) && (r.1.Value? || r.1.Error?)
    ensures r.1.Value? ==> 0 <= r.1.value < ALT_MAX_FD
  {
    if target.None? then (p, Error(ENODEV))
    else
      var (q, index) := GetFd(p, target.value);
      if index.Error? then (q, index)
      else
        var fd := index.value;
        var plain := q.slots[fd].(flags := flags - ALT_FD_FLAGS_MASK);
        var marked := plain.(flags := plain.flags + ALT_FD_DEV);
        var s := SetSlot(q, fd, if target.value.Device? then marked else plain);
        if target.value.Device? && Locked(s, fd) then (ReleaseFd(s, fd), Error(EACCES))
        else if status < 0 then (ReleaseFd(s, fd), Error(Driver(-status)))
        else (s, index)
  }

  /** Calls on a descriptor that is not negative must name an open one. */
  predicate InUse(p: Pool, fd: int)
    requires Shape(p)
  {
    fd < 0 || (fd < ALT_MAX_FD && p.slots[fd].dev.Some?)
  }

  function Close(p: Pool, fd: int, status: int): (r: (Pool, Result))
    requires Shape(p) && InUse(p, fd)
    ensures Shape(r.0)
  {
    if fd < 0 then (p, Error(EBADFD))
    else (ReleaseFd(p, fd), if status < 0 then Error(Driver(-status)) else Value(0))
  }

  function Lock(p: Pool, fd: nat): (r: (Pool, Result))
    requires Shape(p) && fd < ALT_MAX_FD
    ensures Shape(r.0)
  {
    if Shared(p, fd) then (p, Error(EACCES))
    else (SetSlot(p, fd, p.slots[fd].(flags := p.slots[fd].flags + ALT_FD_EXCL)), Value(0))
  }

  function Unlock(p: Pool, fd: nat): (r: Pool)
    requires Shape(p) && fd < ALT_MAX_FD
    ensures Shape(r)
  {
    SetSlot(p, fd, p.slots[fd].(flags := p.slots[fd].flags - ALT_FD_EXCL))
  }

  /** `driver` is what the driver's own ioctl returns, if it has one. */
  function Ioctl(p: Pool, fd: int, req: Request, driver: Option<int>): (r: (Pool, Result))
    requires Shape(p) && InUse(p, fd)
    ensures Shape(r.0)
  {
    if fd < 0 then (p, Error(EBADFD))
    else if p.slots[fd].OnDevice() && req.TIOCEXCL? then Lock(p, fd)
    else if p.slots[fd].OnDevice() && req.TIOCNXCL? then (Unlock(p, fd), Value(0))
    else match driver
      case None => (p, Error(ENOTTY))
      case Some(rc) => (p, if rc < 0 then Error(Driver(-rc)) else Value(rc))
  }

  function Fcntl(p: Pool, fd: int, cmd: Command): (r: (Pool, Result))
    requires Shape(p) && fd < ALT_MAX_FD
    ensures Shape(r.0)
  {
    if fd < 0 then (p, Error(EBADFD))
    else
      var s := p.slots[fd];
      match cmd
      case F_GETFL => (p, Flags(s.flags - ALT_FD_FLAGS_MASK))
      case F_SETFL(arg) =>
        (SetSlot(p, fd, s.(flags := (s.flags - ALT_FCNTL_FLAGS_MASK) + (arg * ALT_FCNTL_FLAGS_MASK))), Value(0))
      case OtherCommand => (p, Error(EINVAL))
  }

  /** Point a standard stream at what the name resolved to, or leave it alone. */
  function Redirect(p: Pool, stream: nat, target: Option<Target>, flags: Word, status: int): (r: Pool)
    requires Shape(p) && stream < 3
    ensures Shape(r)
  {
    var (q, result) := Open(p, target, flags, status);
    if result.Error? then q
    else ReleaseFd(SetSlot(q, stream, q.slots[result.value]), result.value)
  }

  // ----- what every call keeps --------------------------------------------

  /** Well-formed pools.  The last clause is what makes the short lock scan safe:
      whatever shares a device with its exclusive holder lies above the holder. */
  ghost predicate Inv(p: Pool) {
    && Shape(p)
    && (forall i :: 0 <= i < 3 ==> p.slots[i].dev.Some?)
    && (forall i :: 3 <= i < ALT_MAX_FD && p.slots[i].dev.Some? ==> i <= p.maxFd)
    && (forall i :: 0 <= i < ALT_MAX_FD && p.slots[i].OnDevice() ==>
          p.slots[i].dev.Some? && p.slots[i].dev.value.Device? && p.maxFd >= 3)
    && (forall i :: 0 <= i < ALT_MAX_FD && p.slots[i].Exclusive() ==> p.slots[i].OnDevice())
    && (forall i, j | 0 <= i < ALT_MAX_FD && 0 <= j < ALT_MAX_FD && i != j ::
          p.slots[i].Exclusive() && Refers(p.slots[j], p.slots[i]) ==> i < j)
  }

  /** Free slots carry no flags at all. */
  ghost predicate Clean(p: Pool)
    requires Shape(p)
  {
    forall i :: 0 <= i < ALT_MAX_FD && p.slots[i].dev.None? ==> p.slots[i].flags == {}
  }

  ghost predicate Holder(p: Pool, i: int, d: Target)
    requires Shape(p)
  {
    0 <= i < ALT_MAX_FD && p.slots[i].dev == Some(d) && p.slots[i].Exclusive()
  }

  ghost function Referrers(p: Pool, d: Target): set<int>
    requires Shape(p)
  {
    set i | 0 <= i < ALT_MAX_FD && p.slots[i].dev == Some(d)
  }

  /** No two descriptors of one device are exclusive at the same time. */
  lemma OneHolder(p: Pool, d: Target, i: int, j: int)
    requires Inv(p) && Holder(p, i, d) && Holder(p, j, d)
    ensures i == j
  {
    assert Refers(p.slots[j], p.slots[i]) && Refers(p.slots[i], p.slots[j]);
  }

  lemma InitialInv()
    ensures Inv(Initial()) && Clean(Initial())
  {
  }

  /** The bits a caller passes to open never reach the two private flags. */
  lemma OpenBits(s: Slot, flags: Word)
    ensures var plain := s.(flags := flags - ALT_FD_FLAGS_MASK);
            var marked := plain.(flags := plain.flags + ALT_FD_DEV);
            && !plain.Exclusive() && !plain.OnDevice()
            && !marked.Exclusive() && marked.OnDevice()
  {
    assert 30 in ALT_FD_DEV && 30 in flags - ALT_FD_FLAGS_MASK + ALT_FD_DEV;
  }

  /** The slot that the next open takes. */
  lemma FreeAt(p: Pool, k: nat)
    requires Shape(p) && k < ALT_MAX_FD && p.slots[k].dev.None?
    requires forall i :: 0 <= i < k ==> p.slots[i].dev.Some?
    ensures FirstFree(p.slots, 0) == k
  {
  }

  lemma LockBits(s: Slot)
    ensures s.(flags := s.flags + ALT_FD_EXCL).Exclusive()
    ensures s.(flags := s.flags + ALT_FD_EXCL).OnDevice() == s.OnDevice()
    ensures !s.(flags := s.flags - ALT_FD_EXCL).Exclusive()
    ensures s.(flags := s.flags - ALT_FD_EXCL).OnDevice() == s.OnDevice()
  {
    assert 31 in (s.flags + ALT_FD_EXCL) * ALT_FD_EXCL;
    assert (s.flags + ALT_FD_EXCL) * ALT_FD_DEV == s.flags * ALT_FD_DEV;
    assert (s.flags - ALT_FD_EXCL) * ALT_FD_DEV == s.flags * ALT_FD_DEV;
  }

  lemma FcntlBits(s: Slot, arg: Word)
    ensures var t := s.(flags := (s.flags - ALT_FCNTL_FLAGS_MASK) + (arg * ALT_FCNTL_FLAGS_MASK));
            t.Exclusive() == s.Exclusive() && t.OnDevice() == s.OnDevice()
  {
    var f := (s.flags - ALT_FCNTL_FLAGS_MASK) + (arg * ALT_FCNTL_FLAGS_MASK);
    assert f * ALT_FD_EXCL == s.flags * ALT_FD_EXCL;
    assert f * ALT_FD_DEV == s.flags * ALT_FD_DEV;
  }

  /** The slot an open for `target` starts from. */
  function Taken(p: Pool, target: Target): Slot
    requires Shape(p)
  {
    var (q, r) := GetFd(p, target);
    if r.Value? then q.slots[r.value] else Slot(None, 0, {})
  }

  /** Taking a slot touches only the lowest free one, which is above the standard
      streams and, once taken, within the high-water mark. */
  lemma GetFdLowest(p: Pool, target: Target)
    requires Inv(p)
    ensures var (q, r) := GetFd(p, target);
            if r.Error? then q == p && forall i :: 0 <= i < ALT_MAX_FD ==> p.slots[i].dev.Some?
            else
              && 3 <= r.value <= q.maxFd && p.slots[r.value].dev.None?
              && (forall i :: 0 <= i < r.value ==> p.slots[i].dev.Some?)
              && q.slots == p.slots[r.value := p.slots[r.value].(dev := Some(target))]
              && p.maxFd <= q.maxFd && (q.maxFd == p.maxFd || q.maxFd == r.value)
  {
  }

  /** What a successful open leaves: one more descriptor, on a device without an
      exclusive holder. */
  lemma OpenSucceeds(p: Pool, target: Option<Target>, flags: Word, status: int)
    requires Inv(p) && Open(p, target, flags, status).1.Value?
    ensures var (q, r) := Open(p, target, flags, status);
            && Inv(q) && target.Some? && 3 <= r.value < ALT_MAX_FD
            && p.slots[r.value].dev.None? && q.slots[r.value].dev == target
            && !q.slots[r.value].Exclusive()
            && (forall i :: 0 <= i < ALT_MAX_FD && i != r.value ==> q.slots[i] == p.slots[i])
            && (target.value.Device? ==> forall i :: !Holder(q, i, target.value))
  {
    GetFdLowest(p, target.value);
    OpenBits(Taken(p, target.value), flags);
    var (q, r) := Open(p, target, flags, status);
    if target.value.Device? {
      forall i | 0 <= i < ALT_MAX_FD && i != r.value && q.slots[i].dev == target
        ensures !q.slots[i].Exclusive()
      {
        assert Refers(q.slots[i], q.slots[r.value]);
      }
    }
  }

  /** Where nobody holds the device, no slot that refers to it is exclusive. */
  lemma NotHeld(q: Pool, target: Option<Target>, i: nat)
    requires Inv(q) && i < ALT_MAX_FD && target.Some?
    requires target.value.Device? ==> forall k :: !Holder(q, k, target.value)
    ensures q.slots[i].Exclusive() ==> q.slots[i].dev != target
  {
    var d := target.value;
    assert target == Some(d) && (d.FileSystem? || !Holder(q, i, d));
  }

  /** The lowest free slot, if there is one, has no flags. */
  predicate FreeIsPlain(p: Pool)
    requires Shape(p)
  {
    var k := FirstFree(p.slots, 0);
    k == ALT_MAX_FD || p.slots[k].flags == {}
  }

  /** The flags too come back exactly when the slot the open took had none. */
  lemma OpenRestores(p: Pool, target: Option<Target>, flags: Word, status: int)
    requires Inv(p) && Open(p, target, flags, status).1.Error?
    ensures Open(p, target, flags, status).0.slots == p.slots <==> target.None? || FreeIsPlain(p)
  {
    if target.Some? {
      GetFdLowest(p, target.value);
    }
  }

  /** A failed open restores the device of every slot, and every slot in use. */
  lemma OpenFails(p: Pool, target: Option<Target>, flags: Word, status: int)
    requires Inv(p) && Open(p, target, flags, status).1.Error?
    ensures var q := Open(p, target, flags, status).0;
            && Inv(q)
            && (Clean(p) ==> q.slots == p.slots)
            && (forall i :: 0 <= i < ALT_MAX_FD && p.slots[i].dev.Some? ==> q.slots[i] == p.slots[i])
            && (forall i :: 0 <= i < ALT_MAX_FD && p.slots[i].dev.None? ==> q.slots[i].dev.None?)
  {
    if target.Some? && !Full(p) {
      MarkedKeeps(p, target.value, flags);
      OpenIsMarked(p, target.value, flags, status);
      GivenBack(p, target.value, flags);
    }
  }

  /** Releasing the slot an open filled in. */
  lemma GivenBack(p: Pool, target: Target, flags: Word)
    requires Inv(p) && !Full(p)
    ensures var k, q := FirstFree(p.slots, 0), Marked(p, target, flags);
            k < ALT_MAX_FD && Shape(q) && Inv(ReleaseFd(q, k)) && ReleaseFd(q, k).slots == p.slots[k := p.slots[k].(flags := {})]
  {
    MarkedKeeps(p, target, flags);
    var k := FirstFree(p.slots, 0);
    assert p.slots[k].(dev := None) == p.slots[k];
  }

  lemma ReleaseKeeps(p: Pool, fd: int)
    requires Inv(p) && fd < ALT_MAX_FD
    ensures Inv(ReleaseFd(p, fd))
  {
  }

  /** A granted lock leaves at most the descriptor at the high-water mark sharing
      the device, and that one lies above the new holder. */
  lemma LockKeeps(p: Pool, fd: nat)
    requires Inv(p) && fd < ALT_MAX_FD && p.slots[fd].OnDevice()
    ensures Inv(Lock(p, fd).0)
    ensures Lock(p, fd).1 == Value(0) ==>
              forall j :: 0 <= j < ALT_MAX_FD && j != fd && Refers(p.slots[j], p.slots[fd]) ==> j == p.maxFd > fd
  {
    LockBits(p.slots[fd]);
    if !Shared(p, fd) {
      var q := Lock(p, fd).0;
      assert fd <= p.maxFd;
      forall j | 0 <= j < ALT_MAX_FD && j != fd && Refers(q.slots[j], q.slots[fd])
        ensures fd < j == p.maxFd && !q.slots[j].Exclusive()
      {
        assert Refers(p.slots[j], p.slots[fd]) && Refers(p.slots[fd], p.slots[j]);
        assert j == p.maxFd;
      }
    }
  }

  lemma UnlockKeeps(p: Pool, fd: nat)
    requires Inv(p) && fd < ALT_MAX_FD
    ensures Inv(Unlock(p, fd))
  {
    LockBits(p.slots[fd]);
    var q := Unlock(p, fd);
    assert forall i, j | 0 <= i < ALT_MAX_FD && 0 <= j < ALT_MAX_FD ::
        Refers(q.slots[j], q.slots[i]) ==> Refers(p.slots[j], p.slots[i]);
  }

  /** Changing the flags of a descriptor never touches the private ones. */
  lemma FcntlKeeps(p: Pool, fd: int, cmd: Command)
    requires Inv(p) && fd < ALT_MAX_FD
    ensures var q := Fcntl(p, fd, cmd).0;
            && Inv(q)
            && forall i :: 0 <= i < ALT_MAX_FD ==>
                 && q.slots[i].dev == p.slots[i].dev
                 && q.slots[i].Exclusive() == p.slots[i].Exclusive()
                 && q.slots[i].OnDevice() == p.slots[i].OnDevice()
  {
    if fd >= 0 && cmd.F_SETFL? {
      FcntlBits(p.slots[fd], cmd.arg);
      var q := Fcntl(p, fd, cmd).0;
      assert forall i, j | 0 <= i < ALT_MAX_FD && 0 <= j < ALT_MAX_FD ::
          Refers(q.slots[j], q.slots[i]) ==> Refers(p.slots[j], p.slots[i]);
    }
  }

  lemma RedirectKeeps(p: Pool, stream: nat, target: Option<Target>, flags: Word, status: int)
    requires Inv(p) && stream < 3
    ensures Inv(Redirect(p, stream, target, flags, status))
  {
    var (q, result) := Open(p, target, flags, status);
    if result.Error? {
      OpenFails(p, target, flags, status);
    } else {
      OpenSucceeds(p, target, flags, status);
      var s := q.slots[result.value];
      var moved := SetSlot(q, stream, s);
      forall i, j | 0 <= i < ALT_MAX_FD && 0 <= j < ALT_MAX_FD && i != j
        ensures moved.slots[i].Exclusive() && Refers(moved.slots[j], moved.slots[i]) ==> i < j
      {
        if i != stream && j == stream {
          NotHeld(q, target, i);
        } else if i != stream && j != stream {
          assert Refers(moved.slots[j], moved.slots[i]) ==> Refers(q.slots[j], q.slots[i]);
        }
      }
      ReleaseKeeps(moved, result.value);
    }
  }

  /** While a device is held, opening it fails whatever the driver says. */
  lemma HeldDeviceStaysClosed(p: Pool, d: Target, h: int, flags: Word, status: int)
    requires Inv(p) && Holder(p, h, d)
    ensures Open(p, Some(d), flags, status).1 ==
            if forall i :: 0 <= i < ALT_MAX_FD ==> p.slots[i].dev.Some? then Error(EMFILE) else Error(EACCES)
  {
    var r := Open(p, Some(d), flags, status).1;
    GetFdLowest(p, d);
    OpenBits(Taken(p, d), flags);
    var (q, index) := GetFd(p, d);
    if index.Value? {
      assert p.slots[h].OnDevice() && h <= p.maxFd && h != index.value;
      var plain := q.slots[index.value].(flags := flags - ALT_FD_FLAGS_MASK);
      var s := SetSlot(q, index.value, plain.(flags := plain.flags + ALT_FD_DEV));
      assert s.slots[h] == p.slots[h] && Refers(s.slots[h], s.slots[index.value]);
      assert Locked(s, index.value);
    }
  }

  /** The lock's documentation promises it exactly when no other descriptor refers
      to the device.  The scan stops one short, so this holds unless the only
      others are at the high-water mark, above the caller. */
  lemma LockAsDocumented(p: Pool, fd: nat)
    requires Inv(p) && fd < ALT_MAX_FD && p.slots[fd].OnDevice()
    ensures (Lock(p, fd).1 == Value(0) <==> Referrers(p, p.slots[fd].dev.value) == {fd as int})
       <==> (Shared(p, fd) || fd == p.maxFd || !Refers(p.slots[p.maxFd], p.slots[fd]))
  {
    var d := p.slots[fd].dev.value;
    assert fd as int in Referrers(p, d);
    if Shared(p, fd) {
      var i :| 0 <= i < p.maxFd && i != fd && Refers(p.slots[i], p.slots[fd]);
      assert i in Referrers(p, d);
    } else if fd != p.maxFd && Refers(p.slots[p.maxFd], p.slots[fd]) {
      assert p.maxFd in Referrers(p, d);
    } else {
      forall i | i in Referrers(p, d)
        ensures i == fd
      {
        assert Refers(p.slots[i], p.slots[fd]);
      }
    }
  }

  // ----- what every call does ------------------------------------------------

  /** The two pools differ at most in the slot `fd`. */
  ghost predicate SameBut(p: Pool, q: Pool, fd: int)
    requires Shape(p) && Shape(q)
  {
    forall i :: 0 <= i < ALT_MAX_FD && i != fd ==> q.slots[i] == p.slots[i]
  }

  /** A slot as an open leaves it: the caller's flags, never exclusive, and marked as a
      device exactly if it is one. */
  ghost predicate OpenedOn(s: Slot, target: Target, flags: Word) {
    && s.dev == Some(target)
    && forall b :: b in s.flags <==> if b == 30 then target.Device? else b in flags && b != 31
  }

  ghost predicate Held(p: Pool, d: Target)
    requires Shape(p)
  {
    d.Device? && exists h :: Holder(p, h, d)
  }

  predicate Full(p: Pool)
    requires Shape(p)
  {
    forall i :: 0 <= i < ALT_MAX_FD ==> p.slots[i].dev.Some?
  }

  /** The slot an open would fill in, before the lock scan. */
  function Marked(p: Pool, target: Target, flags: Word): Pool
    requires Shape(p)
  {
    var k := FirstFree(p.slots, 0);
    if k == ALT_MAX_FD then p
    else
      var bits := if target.Device? then flags - ALT_FD_FLAGS_MASK + ALT_FD_DEV else flags - ALT_FD_FLAGS_MASK;
      Pool(p.slots[k := p.slots[k].(dev := Some(target), flags := bits)], if k > p.maxFd then k else p.maxFd)
  }

  lemma MarkedKeeps(p: Pool, target: Target, flags: Word)
    requires Inv(p) && !Full(p)
    ensures var k, q := FirstFree(p.slots, 0), Marked(p, target, flags);
            && 3 <= k < ALT_MAX_FD && p.slots[k].dev.None? && k <= q.maxFd && p.maxFd <= q.maxFd && Shape(q)
            && !q.slots[k].Exclusive() && q.slots[k].dev == Some(target)
            && (target.Device? ==> (Locked(q, k) <==> Held(p, target)))
  {
    var k, q := FirstFree(p.slots, 0), Marked(p, target, flags);
    OpenBits(Taken(p, target), flags);
    if target.Device? {
      if h :| Holder(p, h, target) {
        assert h != k && Refers(q.slots[h], q.slots[k]) && q.slots[h].Exclusive() && h <= q.maxFd;
      }
      if Locked(q, k) {
        var i :| 0 <= i <= q.maxFd && i != k && Refers(q.slots[i], q.slots[k]) && q.slots[i].Exclusive();
        assert Holder(p, i, target);
      }
    }
  }

  /** An open succeeds exactly when the name resolves, a slot is free, nobody holds the
      device and the driver agrees; otherwise the first of these that fails is
      reported.  It fills in the lowest free slot with the caller's flags. */
  lemma OpenMeaning(p: Pool, target: Option<Target>, flags: Word, status: int)
    requires Inv(p)
    ensures var (q, r) := Open(p, target, flags, status);
            var k := FirstFree(p.slots, 0);
            && r == (if target.None? then Error(ENODEV)
                     else if Full(p) then Error(EMFILE)
                     else if Held(p, target.value) then Error(EACCES)
                     else if status < 0 then Error(Driver(-status))
                     else Value(k))
            && (r.Value? ==>
                  && k < ALT_MAX_FD && SameBut(p, q, k) && q.slots[k].priv == p.slots[k].priv
                  && OpenedOn(q.slots[k], target.value, flags))
  {
    if target.Some? && !Full(p) {
      MarkedKeeps(p, target.value, flags);
      OpenIsMarked(p, target.value, flags, status);
    }
  }

  lemma OpenIsMarked(p: Pool, target: Target, flags: Word, status: int)
    requires Shape(p) && !Full(p)
    ensures var k, q := FirstFree(p.slots, 0), Marked(p, target, flags);
            k < ALT_MAX_FD && Shape(q) &&
            Open(p, Some(target), flags, status) ==
            if target.Device? && Locked(q, k) then (ReleaseFd(q, k), Error(EACCES))
            else if status < 0 then (ReleaseFd(q, k), Error(Driver(-status)))
            else (q, Value(k))
  {
    var (q, index) := GetFd(p, target);
    var k := FirstFree(p.slots, 0);
    assert q.slots[k := Marked(p, target, flags).slots[k]] == Marked(p, target, flags).slots;
  }

  /** Closing frees the slot, whatever the driver says, and touches no other; the
      standard streams stay open. */
  lemma CloseMeaning(p: Pool, fd: int, status: int)
    requires Inv(p) && InUse(p, fd)
    ensures var (q, r) := Close(p, fd, status);
            && SameBut(p, q, fd) && q.maxFd == p.maxFd
            && (fd > 2 ==> q.slots[fd] == Slot(None, p.slots[fd].priv, {}))
            && (fd <= 2 ==> q == p)
            && r == (if fd < 0 then Error(EBADFD) else if status < 0 then Error(Driver(-status)) else Value(0))
  {
  }

  /** Closing what was just opened leads back to the slots before. */
  lemma OpenThenClose(p: Pool, target: Option<Target>, flags: Word, status: int, closing: int)
    requires Inv(p) && Clean(p) && Open(p, target, flags, status).1.Value?
    ensures var (q, r) := Open(p, target, flags, status);
            InUse(q, r.value) && Close(q, r.value, closing).0.slots == p.slots
  {
    OpenMeaning(p, target, flags, status);
    OpenSucceeds(p, target, flags, status);
    var (q, r) := Open(p, target, flags, status);
    CloseMeaning(q, r.value, closing);
  }

  /** When the holder of a device, not a standard stream, closes, nobody holds it; the
      next open of the device is not refused for that. */
  lemma CloseEndsHold(p: Pool, d: Target, h: int, status: int, flags: Word)
    requires Inv(p) && Holder(p, h, d) && h > 2
    ensures var q := Close(p, h, status).0; !Held(q, d) && Open(q, Some(d), flags, 0).1.Value?
  {
    var q := Close(p, h, status).0;
    CloseMeaning(p, h, status);
    ReleaseKeeps(p, h);
    forall i | Holder(q, i, d)
      ensures false
    {
      assert Holder(p, i, d);
      OneHolder(p, d, i, h);
    }
    OpenMeaning(q, Some(d), flags, 0);
  }

  /** A granted lock makes the caller the holder, a refused one changes nothing, and
      no other slot is touched. */
  lemma LockMeaning(p: Pool, fd: nat)
    requires Inv(p) && fd < ALT_MAX_FD && p.slots[fd].OnDevice()
    ensures var (q, r) := Lock(p, fd);
            && SameBut(p, q, fd) && q.maxFd == p.maxFd
            && r == (if Shared(p, fd) then Error(EACCES) else Value(0))
            && q.slots[fd] == (if Shared(p, fd) then p.slots[fd] else p.slots[fd].(flags := p.slots[fd].flags + {31}))
            && (r == Value(0) ==> Holder(q, fd, p.slots[fd].dev.value))
  {
    LockBits(p.slots[fd]);
  }

  /** Unlocking clears the lock of this descriptor and nothing else; after a lock it
      leads back to the pool before, unless the caller was the holder already. */
  lemma UnlockMeaning(p: Pool, fd: nat)
    requires Inv(p) && fd < ALT_MAX_FD && p.slots[fd].OnDevice()
    ensures var q := Unlock(p, fd);
            && SameBut(p, q, fd) && q.maxFd == p.maxFd
            && q.slots[fd] == p.slots[fd].(flags := p.slots[fd].flags - {31})
            && !Held(q, p.slots[fd].dev.value) == (Held(p, p.slots[fd].dev.value) ==> p.slots[fd].Exclusive())
    ensures Unlock(Lock(p, fd).0, fd) == p <==> !p.slots[fd].Exclusive()
  {
    var d, q := p.slots[fd].dev.value, Unlock(p, fd);
    LockBits(p.slots[fd]);
    if h :| Holder(q, h, d) {
      assert Holder(p, h, d);
      if p.slots[fd].Exclusive() {
        OneHolder(p, d, h, fd);
      }
    }
    if h :| Holder(p, h, d) {
      assert h != fd ==> Holder(q, h, d);
    }
    LockThenUnlock(p, fd);
  }

  lemma LockThenUnlock(p: Pool, fd: nat)
    requires Shape(p) && fd < ALT_MAX_FD
    ensures Unlock(Lock(p, fd).0, fd) == p <==> !p.slots[fd].Exclusive()
  {
    var s := p.slots[fd];
    var back := Unlock(Lock(p, fd).0, fd);
    assert s.flags + ALT_FD_EXCL - ALT_FD_EXCL == s.flags - ALT_FD_EXCL;
    assert back.slots[fd].flags == s.flags - ALT_FD_EXCL;
    if !s.Exclusive() {
      assert 31 in s.flags ==> 31 in s.flags * ALT_FD_EXCL;
      assert s.flags - ALT_FD_EXCL == s.flags;
      assert back.slots == p.slots;
    } else {
      assert 31 in s.flags;
    }
  }

  /** On an open descriptor of a device the two lock requests lock and unlock, whatever
      the driver would say; every other request, and any request to a file system,
      leaves the pool alone and gets the driver's answer. */
  lemma IoctlMeaning(p: Pool, fd: int, req: Request, driver: Option<int>)
    requires Inv(p) && InUse(p, fd)
    ensures var (q, r) := Ioctl(p, fd, req, driver);
            if fd < 0 then q == p && r == Error(EBADFD)
            else if p.slots[fd].OnDevice() && req == TIOCEXCL then
              (r == Value(0) <==> Holder(q, fd, p.slots[fd].dev.value) && !Shared(p, fd)) && (r == Value(0) || (r == Error(EACCES) && q == p))
            else if p.slots[fd].OnDevice() && req == TIOCNXCL then
              r == Value(0) && !q.slots[fd].Exclusive() && SameBut(p, q, fd)
            else
              q == p && match driver
                        case None => r == Error(ENOTTY)
                        case Some(rc) => r == if rc < 0 then Error(Driver(-rc)) else Value(rc)
  {
    if fd >= 0 && p.slots[fd].OnDevice() {
      LockMeaning(p, fd);
      LockBits(p.slots[fd]);
    }
  }

  /** Setting flags replaces the two settable bits and keeps all others; what is read
      back are exactly the bits that are not private.  Any other command is an error
      and changes nothing. */
  lemma FcntlMeaning(p: Pool, fd: int, cmd: Command)
    requires Inv(p) && fd < ALT_MAX_FD
    ensures var (q, r) := Fcntl(p, fd, cmd);
            && SameBut(p, q, fd) && q.maxFd == p.maxFd
            && (fd < 0 ==> q == p && r == Error(EBADFD))
            && (fd >= 0 && cmd.OtherCommand? ==> q == p && r == Error(EINVAL))
            && (fd >= 0 && cmd.F_GETFL? ==>
                  q == p && r.Flags? && forall b :: b in r.bits <==> b in p.slots[fd].flags && b != 30 && b != 31)
            && (fd >= 0 && cmd.F_SETFL? ==>
                  && r == Value(0) && q.slots[fd] == p.slots[fd].(flags := q.slots[fd].flags)
                  && forall b :: b in q.slots[fd].flags <==> if b == 3 || b == 14 then b in cmd.arg else b in p.slots[fd].flags)
  {
  }

  /** What was set is what is read. */
  lemma SetThenGet(p: Pool, fd: nat, arg: Word)
    requires Inv(p) && fd < ALT_MAX_FD
    ensures var r := Fcntl(Fcntl(p, fd, F_SETFL(arg)).0, fd, F_GETFL).1;
            r.Flags? && forall b :: b != 30 && b != 31 ==>
              (b in r.bits <==> if b == 3 || b == 14 then b in arg else b in p.slots[fd].flags)
  {
    FcntlMeaning(p, fd, F_SETFL(arg));
    FcntlKeeps(p, fd, F_SETFL(arg));
    FcntlMeaning(Fcntl(p, fd, F_SETFL(arg)).0, fd, F_GETFL);
  }

  /** A redirected stream refers to what the name resolved to, with the flags of an
      open of it, exactly when that open succeeds; otherwise it stays where it was.
      Every other descriptor in use stays as it was, and none is added. */
  lemma RedirectMeaning(p: Pool, stream: nat, target: Option<Target>, flags: Word, status: int)
    requires Inv(p) && stream < 3
    ensures var q, r := Redirect(p, stream, target, flags, status), Open(p, target, flags, status).1;
            && (forall i :: 0 <= i < ALT_MAX_FD && i != stream ==>
                  if p.slots[i].dev.Some? then q.slots[i] == p.slots[i] else q.slots[i].dev.None?)
            && (r.Error? ==> q.slots[stream] == p.slots[stream])
            && (r.Value? ==>
                  target.Some? && OpenedOn(q.slots[stream], target.value, flags))
  {
    if Open(p, target, flags, status).1.Value? {
      OpenMeaning(p, target, flags, status);
      OpenSucceeds(p, target, flags, status);
    } else {
      OpenFails(p, target, flags, status);
    }
  }

  /** Redirecting output, input and error in turn: each stream ends on what its name
      resolved to, if that could be opened at its turn, and where it was if not; all
      other descriptors stay as they were. */
  lemma RedirectAll(p: Pool, out: Option<Target>, inp: Option<Target>, err: Option<Target>,
                    flags: seq<Word>, status: seq<int>)
    requires Inv(p) && |flags| == 3 && |status| == 3
    ensures var a := Redirect(p, 1, out, flags[0], status[0]);
            var b := Redirect(a, 0, inp, flags[1], status[1]);
            var c := Redirect(b, 2, err, flags[2], status[2]);
            && Redirected(p, p.slots[1], c.slots[1], out, flags[0], status[0])
            && Redirected(a, p.slots[0], c.slots[0], inp, flags[1], status[1])
            && Redirected(b, p.slots[2], c.slots[2], err, flags[2], status[2])
            && forall i :: 3 <= i < ALT_MAX_FD ==>
                 if p.slots[i].dev.Some? then c.slots[i] == p.slots[i] else c.slots[i].dev.None?
  {
    RedirectMeaning(p, 1, out, flags[0], status[0]);
    RedirectKeeps(p, 1, out, flags[0], status[0]);
    var a := Redirect(p, 1, out, flags[0], status[0]);
    RedirectMeaning(a, 0, inp, flags[1], status[1]);
    RedirectKeeps(a, 0, inp, flags[1], status[1]);
    var b := Redirect(a, 0, inp, flags[1], status[1]);
    RedirectMeaning(b, 2, err, flags[2], status[2]);
  }

  /** A stream after a redirection at pool `p`. */
  ghost predicate Redirected(p: Pool, before: Slot, after: Slot, target: Option<Target>, flags: Word, status: int)
    requires Shape(p)
  {
    if Open(p, target, flags, status).1.Value? then target.Some? && OpenedOn(after, target.value, flags)
    else after == before
  }

  // ----- runs --------------------------------------------------------------

  datatype Op =
    | OpenOp(target: Option<Target>, flags: Word, status: int)
    | CloseOp(fd: int, status: int)
    | IoctlOp(fd: int, req: Request, driver: Option<int>)
    | FcntlOp(fd: int, cmd: Command)
    | RedirectOp(stream: nat, target: Option<Target>, flags: Word, status: int)

  /** What a call requires of its caller: descriptors inside the pool, open where
      the call goes through to the driver. */
  predicate Allowed(p: Pool, op: Op)
    requires Shape(p)
  {
    match op
    case OpenOp(_, _, _) => true
    case CloseOp(fd, _) => InUse(p, fd)
    case IoctlOp(fd, _, _) => InUse(p, fd)
    case FcntlOp(fd, _) => fd < ALT_MAX_FD
    case RedirectOp(stream, _, _, _) => stream < 3
  }

  function Apply(p: Pool, op: Op): (q: Pool)
    requires Shape(p) && Allowed(p, op)
    ensures Shape(q)
  {
    match op
    case OpenOp(target, flags, status) => Open(p, target, flags, status).0
    case CloseOp(fd, status) => Close(p, fd, status).0
    case IoctlOp(fd, req, driver) => Ioctl(p, fd, req, driver).0
    case FcntlOp(fd, cmd) => Fcntl(p, fd, cmd).0
    case RedirectOp(stream, target, flags, status) => Redirect(p, stream, target, flags, status)
  }

  /** `trace` is a history of the pool from its initial state. */
  ghost predicate History(trace: seq<Pool>, ops: seq<Op>) {
    && |trace| == |ops| + 1 && trace[0] == Initial()
    && forall k :: 0 <= k < |ops| ==>
         Shape(trace[k]) && Allowed(trace[k], ops[k]) && trace[k + 1] == Apply(trace[k], ops[k])
  }

  lemma ApplyKeeps(p: Pool, op: Op)
    requires Inv(p) && Allowed(p, op)
    ensures Inv(Apply(p, op))
  {
    match op
    case OpenOp(target, flags, status) =>
      if Open(p, target, flags, status).1.Value? {
        OpenSucceeds(p, target, flags, status);
      } else {
        OpenFails(p, target, flags, status);
      }
    case CloseOp(fd, status) =>
      ReleaseKeeps(p, if fd < 0 then 0 else fd);
    case IoctlOp(fd, req, driver) =>
      if fd >= 0 && p.slots[fd].OnDevice() {
        LockKeeps(p, fd);
        UnlockKeeps(p, fd);
      }
    case FcntlOp(fd, cmd) => FcntlKeeps(p, fd, cmd);
    case RedirectOp(stream, target, flags, status) => RedirectKeeps(p, stream, target, flags, status);
  }

  /** What one step of a history does, call by call. */
  lemma StepMeaning(p: Pool, op: Op)
    requires Inv(p) && Allowed(p, op)
    ensures var q := Apply(p, op);
            match op
            case OpenOp(target, flags, status) =>
              var r := Open(p, target, flags, status).1;
              if r.Value? then
                r.value == FirstFree(p.slots, 0) && target.Some? && SameBut(p, q, r.value)
                && 0 <= r.value < ALT_MAX_FD && OpenedOn(q.slots[r.value], target.value, flags)
              else forall i :: 0 <= i < ALT_MAX_FD ==> q.slots[i].dev == p.slots[i].dev
            case CloseOp(fd, _) =>
              SameBut(p, q, fd) && if fd > 2 then q.slots[fd].dev.None? && q.slots[fd].flags == {} else q == p
            case IoctlOp(fd, req, _) =>
              SameBut(p, q, fd) &&
              if fd >= 0 && p.slots[fd].OnDevice() && req == TIOCEXCL && !Shared(p, fd) then
                Holder(q, fd, p.slots[fd].dev.value)
              else if fd >= 0 && p.slots[fd].OnDevice() && req == TIOCNXCL then
                q.slots[fd].dev == p.slots[fd].dev && !q.slots[fd].Exclusive()
              else q == p
            case FcntlOp(fd, cmd) =>
              SameBut(p, q, fd) &&
              if fd >= 0 && cmd.F_SETFL? then
                forall b :: b in q.slots[fd].flags <==> if b == 3 || b == 14 then b in cmd.arg else b in p.slots[fd].flags
              else q == p
            case RedirectOp(stream, target, flags, status) =>
              && Redirected(p, p.slots[stream], q.slots[stream], target, flags, status)
              && forall i :: 0 <= i < ALT_MAX_FD && i != stream ==> q.slots[i].dev == p.slots[i].dev
  {
    match op
    case OpenOp(target, flags, status) =>
      OpenMeaning(p, target, flags, status);
      if Open(p, target, flags, status).1.Error? {
        OpenFails(p, target, flags, status);
      }
    case CloseOp(fd, status) => CloseMeaning(p, fd, status);
    case IoctlOp(fd, req, driver) =>
      IoctlMeaning(p, fd, req, driver);
      if fd >= 0 && p.slots[fd].OnDevice() {
        LockMeaning(p, fd);
      }
    case FcntlOp(fd, cmd) => FcntlMeaning(p, fd, cmd);
    case RedirectOp(stream, target, flags, status) => RedirectMeaning(p, stream, target, flags, status);
  }

  lemma {:induction false} HistoryInv(trace: seq<Pool>, ops: seq<Op>, k: nat)
    requires History(trace, ops) && k <= |ops|
    ensures Inv(trace[k])
  {
    if k == 0 {
      InitialInv();
    } else {
      HistoryInv(trace, ops, k - 1);
      ApplyKeeps(trace[k - 1], ops[k - 1]);
    }
  }

  /** At every moment of every history at most one descriptor per device is
      exclusive. */
  lemma MutualExclusion(trace: seq<Pool>, ops: seq<Op>, k: nat, d: Target, i: int, j: int)
    requires History(trace, ops) && k <= |ops|
    requires Shape(trace[k]) && Holder(trace[k], i, d) && Holder(trace[k], j, d)
    ensures i == j
  {
    HistoryInv(trace, ops, k);
    OneHolder(trace[k], d, i, j);
  }

  /** While a device is held, no call adds a descriptor to it. */
  lemma HeldDeviceGainsNothing(p: Pool, op: Op, d: Target, h: int)
    requires Inv(p) && Allowed(p, op) && Holder(p, h, d)
    ensures Referrers(Apply(p, op), d) <= Referrers(p, d)
  {
    var q := Apply(p, op);
    match op
    case OpenOp(target, flags, status) => OpenGainsNothing(p, target, flags, status, d, h);
    case RedirectOp(stream, target, flags, status) => OpenGainsNothing(p, target, flags, status, d, h);
    case _ =>
  }

  lemma OpenGainsNothing(p: Pool, target: Option<Target>, flags: Word, status: int, d: Target, h: int)
    requires Inv(p) && Holder(p, h, d)
    ensures var (q, r) := Open(p, target, flags, status);
            && Referrers(q, d) <= Referrers(p, d)
            && (r.Value? ==> q.slots[r.value].dev != Some(d))
  {
    var (q, r) := Open(p, target, flags, status);
    if target == Some(d) {
      HeldDeviceStaysClosed(p, d, h, flags, status);
    }
    if r.Value? {
      OpenSucceeds(p, target, flags, status);
    } else {
      OpenFails(p, target, flags, status);
    }
  }

  /** Free slots stay without flags, except that setting flags through a
      descriptor nobody opened leaves them behind. */
  lemma CleanKept(p: Pool, op: Op)
    requires Inv(p) && Clean(p) && Allowed(p, op)
    ensures Clean(Apply(p, op)) <==>
            !(op.FcntlOp? && op.fd >= 0 && p.slots[op.fd].dev.None? && op.cmd.F_SETFL?
              && op.cmd.arg * ALT_FCNTL_FLAGS_MASK != {})
  {
    match op
    case OpenOp(target, flags, status) => OpenIsClean(p, target, flags, status);
    case RedirectOp(stream, target, flags, status) => OpenIsClean(p, target, flags, status);
    case FcntlOp(fd, cmd) =>
      if fd >= 0 && cmd.F_SETFL? && p.slots[fd].dev.None? {
        assert Apply(p, op).slots[fd].dev.None?;
      }
    case _ =>
  }

  /** A call that sets a settable flag through a descriptor nobody opened. */
  predicate Dirties(p: Pool, op: Op)
    requires Shape(p) && Allowed(p, op)
  {
    && op.FcntlOp? && op.fd >= 0 && p.slots[op.fd].dev.None?
    && op.cmd.F_SETFL? && op.cmd.arg * ALT_FCNTL_FLAGS_MASK != {}
  }

  /** In a history without such calls free slots have no flags at any moment. */
  lemma {:induction false} HistoryClean(trace: seq<Pool>, ops: seq<Op>, k: nat)
    requires History(trace, ops) && k <= |ops|
    requires forall j :: 0 <= j < k ==> !Dirties(trace[j], ops[j])
    ensures Shape(trace[k]) && Clean(trace[k])
  {
    HistoryInv(trace, ops, k);
    if k == 0 {
      InitialInv();
    } else {
      HistoryInv(trace, ops, k - 1);
      HistoryClean(trace, ops, k - 1);
      CleanKept(trace[k - 1], ops[k - 1]);
    }
  }

  /** In such a history a failed open gives back every slot as it was; in any history
      it gives back the slots in use and leaves the free ones free. */
  lemma FailedOpenRestores(trace: seq<Pool>, ops: seq<Op>, k: nat)
    requires History(trace, ops) && k < |ops| && ops[k].OpenOp?
    requires var op := ops[k]; Open(trace[k], op.target, op.flags, op.status).1.Error?
    ensures Shape(trace[k + 1])
    ensures forall i :: 0 <= i < ALT_MAX_FD ==> trace[k + 1].slots[i].dev == trace[k].slots[i].dev
    ensures forall i :: 0 <= i < ALT_MAX_FD && trace[k].slots[i].dev.Some? ==> trace[k + 1].slots[i] == trace[k].slots[i]
    ensures Shape(trace[k]) && (trace[k + 1].slots == trace[k].slots <==> ops[k].target.None? || FreeIsPlain(trace[k]))
    ensures (forall j :: 0 <= j < k ==> !Dirties(trace[j], ops[j])) ==> trace[k + 1].slots == trace[k].slots
  {
    HistoryInv(trace, ops, k);
    OpenRestores(trace[k], ops[k].target, ops[k].flags, ops[k].status);
    OpenFails(trace[k], ops[k].target, ops[k].flags, ops[k].status);
    if forall j :: 0 <= j < k ==> !Dirties(trace[j], ops[j]) {
      HistoryClean(trace, ops, k);
    }
  }

  /** The failing case: setting O_APPEND through descriptor 3, which nobody opened,
      leaves the flag in a free slot, and an open that fails in its driver clears it
      instead of giving it back. */
  lemma FlagsLeftBehind() returns (trace: seq<Pool>, ops: seq<Op>)
    ensures History(trace, ops) && |ops| == 2 && ops[1].OpenOp?
    ensures !Clean(trace[1]) && trace[1].slots[3] == Slot(None, 0, {3})
    ensures Open(trace[1], ops[1].target, ops[1].flags, ops[1].status).1.Error?
    ensures trace[2].slots[3] == Slot(None, 0, {})
  {
    ops := [FcntlOp(3, F_SETFL({3})), OpenOp(Some(FileSystem(1)), {}, -5)];
    var p := Initial();
    FreeAt(p, 3);
    var p1 := Apply(p, ops[0]);
    assert p1.slots[3].flags == {3};
    FreeAt(p1, 3);
    trace := [p, p1, Apply(p1, ops[1])];
  }

  /** The failing case, reached by calls: a device is opened twice, and the first of
      the two descriptors gets the lock although it is not alone. */
  lemma LockOnSharedDevice() returns (trace: seq<Pool>, ops: seq<Op>)
    ensures History(trace, ops) && |ops| == 3
    ensures ops[2] == IoctlOp(3, TIOCEXCL, None) && Ioctl(trace[2], 3, TIOCEXCL, None).1 == Value(0)
    ensures Holder(trace[3], 3, Device(1)) && Referrers(trace[3], Device(1)) == {3, 4}
  {
    ops := [OpenOp(Some(Device(1)), {}, 0), OpenOp(Some(Device(1)), {}, 0), IoctlOp(3, TIOCEXCL, None)];
    var p := Initial();
    FreeAt(p, 3);
    var p1 := Apply(p, ops[0]);
    assert p1.maxFd == 3 && p1.slots[3] == Slot(Some(Device(1)), 0, ALT_FD_DEV);
    FreeAt(p1, 4);
    var p2 := Apply(p1, ops[1]);
    assert p2 == Pool(p1.slots[4 := p1.slots[3]], 4);
    trace := [p, p1, p2, Apply(p2, ops[2])];
  }

  lemma OpenIsClean(p: Pool, target: Option<Target>, flags: Word, status: int)
    requires Inv(p) && Clean(p)
    ensures Clean(Open(p, target, flags, status).0)
  {
    if Open(p, target, flags, status).1.Value? {
      OpenSucceeds(p, target, flags, status);
    } else {
      OpenFails(p, target, flags, status);
    }
  }
}
