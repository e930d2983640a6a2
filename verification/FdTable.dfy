/** The descriptor table itself: an array of slots and the high-water mark, with
    the system calls as they edit it in place. */
module FdTable {
  import opened Words
  import opened FdPool

  /** The mark as the lock scan compares it with its unsigned index. */
  function Unsigned(mark: int): nat {
    mark % WORD
  }

  class Table {
    const list: array<Slot>
    var maxFd: int

    ghost predicate Valid()
      reads this, list
    {
      list.Length == ALT_MAX_FD && Shape(Contents())
    }

    ghost function Contents(): Pool
      reads this, list
    {
      Pool(list[..], maxFd)
    }

    constructor ()
      ensures Valid() && Contents() == Initial() && fresh(list)
    {
      list := new Slot[ALT_MAX_FD](i => Slot(if i < 3 then Some(NULL_DEVICE) else None, 0, {}));
      maxFd := -1;
      new;
      assert list[..] == Initial().slots;
    }

    method SetFlags(fd: nat, flags: Word)
      requires Valid() && fd < ALT_MAX_FD
      modifies list
      ensures Valid() && Contents() == SetSlot(old(Contents()), fd, old(list[fd]).(flags := flags))
    {
      list[fd] := list[fd].(flags := flags);
    }

    method GetFd(target: Target) returns (rc: Result)
      requires Valid()
      modifies this, list
      ensures Valid() && (Contents(), rc) == FdPool.GetFd(old(Contents()), target)
    {
      for i := 0 to ALT_MAX_FD
        invariant Contents() == old(Contents())
        invariant FirstFree(list[..], 0) == FirstFree(list[..], i)
      {
        if list[i].dev.None? {
          list[i] := list[i].(dev := Some(target));
          if i > maxFd {
            maxFd := i;
          }
          return Value(i);
        }
      }
      rc := Error(EMFILE);
    }

    method ReleaseFd(fd: int)
      requires Valid() && fd < ALT_MAX_FD
      modifies list
      ensures Valid() && Contents() == FdPool.ReleaseFd(old(Contents()), fd)
    {
      if fd > 2 {
        list[fd] := list[fd].(flags := {});
        list[fd] := list[fd].(dev := None);
      }
    }

    /** Mark the descriptor as one of a device, then look for another one that
        holds the device.  The scan's index is unsigned, so that it must not run
        before any descriptor was given out. */
    method FileLocked(fd: nat) returns (locked: bool)
      requires Valid() && fd < ALT_MAX_FD && maxFd >= 0
      modifies list
      ensures Valid() && Contents() ==
              SetSlot(old(Contents()), fd, old(list[fd]).(flags := old(list[fd]).flags + ALT_FD_DEV))
      ensures locked <==> Locked(Contents(), fd)
    {
      SetFlags(fd, list[fd].flags + ALT_FD_DEV);
      var i: nat := 0;
      while i <= Unsigned(maxFd)
        invariant maxFd == old(maxFd)
        invariant forall j :: 0 <= j < i && j <= maxFd ==>
                    !(j != fd && Refers(Contents().slots[j], Contents().slots[fd]) && Contents().slots[j].Exclusive())
      {
        if list[i].dev == list[fd].dev && list[i].flags * ALT_FD_EXCL != {} && i != fd {
          assert Refers(Contents().slots[i], Contents().slots[fd]);
          return true;
        }
        i := i + 1;
      }
      locked := false;
    }

    /** Fill in a slot just taken for `target`; false means that the device is
        held by someone else. */
    method Prepare(index: nat, target: Target, flags: Word) returns (ok: bool)
      requires Valid() && index < ALT_MAX_FD && index <= maxFd
      modifies list
      ensures var plain := old(list[index]).(flags := flags - ALT_FD_FLAGS_MASK);
              var marked := plain.(flags := plain.flags + ALT_FD_DEV);
              && Valid()
              && Contents() == SetSlot(old(Contents()), index, if target.Device? then marked else plain)
              && (ok <==> !(target.Device? && Locked(Contents(), index)))
    {
      SetFlags(index, flags - ALT_FD_FLAGS_MASK);
      ok := true;
      if target.Device? {
        var locked := FileLocked(index);
        ok := !locked;
      }
    }

    method Open(target: Option<Target>, flags: Word, status: int) returns (r: Result)
      requires Valid()
      modifies this, list
      ensures Valid() && (Contents(), r) == FdPool.Open(old(Contents()), target, flags, status)
    {
      var index := -1;
      r := Error(ENODEV);
      if target.Some? {
        r := GetFd(target.value);
        if r.Value? {
          index := r.value;
          var ok := Prepare(index, target.value, flags);
          if !ok {
            r := Error(EACCES);
          } else if status < 0 {
            r := Error(Driver(-status));
          }
        }
      }
      if r.Error? {
        ReleaseFd(index);
      }
    }

    method Close(fd: int, status: int) returns (r: Result)
      requires Valid() && InUse(Contents(), fd)
      modifies list
      ensures Valid() && (Contents(), r) == FdPool.Close(old(Contents()), fd, status)
    {
      if fd < 0 {
        return Error(EBADFD);
      }
      ReleaseFd(fd);
      r := if status < 0 then Error(Driver(-status)) else Value(0);
    }

    method Lock(fd: nat) returns (r: Result)
      requires Valid() && fd < ALT_MAX_FD
      modifies list
      ensures Valid() && (Contents(), r) == FdPool.Lock(old(Contents()), fd)
    {
      var i := 0;
      while i < maxFd
        invariant 0 <= i && Contents() == old(Contents())
        invariant forall j :: 0 <= j < i && j < maxFd ==>
                    !(j != fd && Refers(Contents().slots[j], Contents().slots[fd]))
      {
        if i != fd && list[i].dev == list[fd].dev {
          assert Refers(Contents().slots[i], Contents().slots[fd]);
          return Error(EACCES);
        }
        i := i + 1;
      }
      SetFlags(fd, list[fd].flags + ALT_FD_EXCL);
      r := Value(0);
    }

    method Ioctl(fd: int, req: Request, driver: Option<int>) returns (r: Result)
      requires Valid() && InUse(Contents(), fd)
      modifies list
      ensures Valid() && (Contents(), r) == FdPool.Ioctl(old(Contents()), fd, req, driver)
    {
      if fd < 0 {
        return Error(EBADFD);
      }
      if list[fd].flags * ALT_FD_DEV != {} {
        if req == TIOCEXCL {
          r := Lock(fd);
          return;
        } else if req == TIOCNXCL {
          SetFlags(fd, list[fd].flags - ALT_FD_EXCL);
          return Value(0);
        }
      }
      match driver
      case None => r := Error(ENOTTY);
      case Some(rc) => r := if rc < 0 then Error(Driver(-rc)) else Value(rc);
    }

    method Fcntl(fd: int, cmd: Command) returns (r: Result)
      requires Valid() && fd < ALT_MAX_FD
      modifies list
      ensures Valid() && (Contents(), r) == FdPool.Fcntl(old(Contents()), fd, cmd)
    {
      if fd < 0 {
        return Error(EBADFD);
      }
      match cmd
      case F_GETFL =>
        r := Flags(list[fd].flags - ALT_FD_FLAGS_MASK);
      case F_SETFL(arg) =>
        var kept := list[fd].flags - ALT_FCNTL_FLAGS_MASK;
        SetFlags(fd, kept + (arg * ALT_FCNTL_FLAGS_MASK));
        r := Value(0);
      case OtherCommand =>
        r := Error(EINVAL);
    }

    /** Point one of the standard streams at what a name resolved to. */
    method OpenStream(stream: nat, target: Option<Target>, flags: Word, status: int)
      requires Valid() && stream < 3
      modifies this, list
      ensures Valid() && Contents() == FdPool.Redirect(old(Contents()), stream, target, flags, status)
    {
      var result := Open(target, flags, status);
      if result.Value? {
        var fd := result.value;
        list[stream] := list[fd];
        ReleaseFd(fd);
      }
    }

    /** Redirect the standard streams: output, input, error. */
    method IoRedirect(out: Option<Target>, inp: Option<Target>, err: Option<Target>,
                      flags: seq<Word>, status: seq<int>)
      requires Valid() && |flags| == 3 && |status| == 3
      modifies this, list
      ensures Valid()
      ensures Contents() ==
              var a := FdPool.Redirect(old(Contents()), 1, out, flags[0], status[0]);
              var b := FdPool.Redirect(a, 0, inp, flags[1], status[1]);
              FdPool.Redirect(b, 2, err, flags[2], status[2])
    {
      OpenStream(1, out, flags[0], status[0]);
      OpenStream(0, inp, flags[1], status[1]);
      OpenStream(2, err, flags[2], status[2]);
    }

    method Perform(op: Op)
      requires Valid() && Allowed(Contents(), op)
      modifies this, list
      ensures Valid() && Contents() == Apply(old(Contents()), op)
    {
      match op
      case OpenOp(target, flags, status) => var _ := Open(target, flags, status);
      case CloseOp(fd, status) => var _ := Close(fd, status);
      case IoctlOp(fd, req, driver) => var _ := Ioctl(fd, req, driver);
      case FcntlOp(fd, cmd) => var _ := Fcntl(fd, cmd);
      case RedirectOp(stream, target, flags, status) => OpenStream(stream, target, flags, status);
    }
  }

  /** A table fresh from boot driven by any calls its callers may make goes through
      a history of the pool, so everything proved of histories holds of it. */
  method Session(ops: seq<Op>) returns (t: Table, ghost trace: seq<Pool>, ghost done: seq<Op>)
    ensures t.Valid() && History(trace, done) && t.Contents() == trace[|done|]
    ensures done <= ops && (|done| < |ops| ==> !Allowed(t.Contents(), ops[|done|]))
    ensures Inv(t.Contents())
  {
    t := new Table();
    trace, done := [t.Contents()], [];
    for i := 0 to |ops|
      invariant fresh(t) && fresh(t.list) && t.Valid()
      invariant done == ops[..i] && History(trace, done) && t.Contents() == trace[|done|]
    {
      var allowed := match ops[i]
        case OpenOp(_, _, _) => true
        case CloseOp(fd, _) => fd < 0 || (fd < ALT_MAX_FD && t.list[fd].dev.Some?)
        case IoctlOp(fd, _, _) => fd < 0 || (fd < ALT_MAX_FD && t.list[fd].dev.Some?)
        case FcntlOp(fd, _) => fd < ALT_MAX_FD
        case RedirectOp(stream, _, _, _) => stream < 3;
      if !allowed {
        break;
      }
      t.Perform(ops[i]);
      done := done + [ops[i]];
      trace := trace + [t.Contents()];
    }
    HistoryInv(trace, done, |done|);
  }
}
