/** The file-descriptor pool of the board support package (alt_get_fd.c, alt_release_fd.c, alt_open.c,
    alt_close.c, alt_ioctl.c, alt_fd_lock.c, alt_fd_unlock.c, alt_io_redirect.c). */
module FdPool {

  const EXCL: bv32 := 0x8000_0000
  const DEV: bv32 := 0x4000_0000
  const MODE: bv32 := 0x3FFF_FFFF
  const EACCES := 13
  const ENODEV := 19
  const EMFILE := 24
  const EBADFD := 81

  /** What a descriptor refers to: nothing, a registered device, or a file system. */
  datatype Target = Nothing | Device(id: nat) | FileSystem(id: nat)

  datatype Entry = Entry(dev: Target, flags: bv32)

  /** The pool and its high-water mark. */
  datatype Pool = Pool(fds: seq<Entry>, maxFd: int)

  datatype Opened = Opened(fd: nat) | Failed(errno: int)

  const FREE := Entry(Nothing, 0)
  const DEV_NULL := Device(0)

  // ---- The flag bits ----

  predicate Excl(e: Entry) {
    e.flags & EXCL != 0
  }

  predicate Dev(e: Entry) {
    e.flags & DEV != 0
  }

  function Plain(e: Entry): (r: Entry)
    ensures !Excl(r) && !Dev(r) && r.dev == e.dev
    ensures r.flags & MODE == e.flags & MODE
  {
    e.(flags := e.flags & !(EXCL | DEV))
  }

  function Marked(e: Entry): (r: Entry)
    ensures Dev(r) && Excl(r) == Excl(e) && r.dev == e.dev
    ensures r.flags & MODE == e.flags & MODE
  {
    e.(flags := e.flags | DEV)
  }

  function Locked(e: Entry): (r: Entry)
    ensures Excl(r) && Dev(r) == Dev(e) && r.dev == e.dev
    ensures r.flags & MODE == e.flags & MODE
  {
    e.(flags := e.flags | EXCL)
  }

  function Unlocked(e: Entry): (r: Entry)
    ensures !Excl(r) && Dev(r) == Dev(e) && r.dev == e.dev
    ensures r.flags & MODE == e.flags & MODE
  {
    e.(flags := e.flags & !EXCL)
  }

  // ---- What the calls mean ----

  /** The first free descriptor at or after `i`; the length of the pool if there is none. */
  function FirstFree(fds: seq<Entry>, i: nat): (r: nat)
    requires i <= |fds|
    ensures i <= r <= |fds| && (r < |fds| ==> fds[r].dev == Nothing)
    ensures forall j :: i <= j < r ==> fds[j].dev != Nothing
    decreases |fds| - i
  {
    if i == |fds| || fds[i].dev == Nothing then i else FirstFree(fds, i + 1)
  }

  /** Some descriptor of the device carries the exclusive flag. */
  predicate Held(fds: seq<Entry>, dev: Target) {
    exists i :: 0 <= i < |fds| && fds[i].dev == dev && Excl(fds[i])
  }

  /** Opening the target of a name, with the answer of its own open function: nothing but the mark
      changes when that fails. */
  function Open(s: Pool, dev: Target, flags: bv32, status: int): (r: (Pool, Opened))
    ensures |r.0.fds| == |s.fds| && (r.1.Opened? ==> r.1.fd < |s.fds| && s.fds[r.1.fd].dev == Nothing)
  {
    var i := FirstFree(s.fds, 0);
    if dev == Nothing then (s, Failed(ENODEV))
    else if i == |s.fds| then (s, Failed(EMFILE))
    else
      var marked := s.(maxFd := if i > s.maxFd then i else s.maxFd);
      if dev.Device? && Held(s.fds, dev) then (marked, Failed(EACCES))
      else if status < 0 then (marked, Failed(-status))
      else
        var plain := Plain(Entry(dev, flags));
        (marked.(fds := s.fds[i := if dev.Device? then Marked(plain) else plain]), Opened(i))
  }

  function Close(s: Pool, fd: nat): Pool
    requires fd < |s.fds|
  {
    if fd > 2 then s.(fds := s.fds[fd := FREE]) else s
  }

  /** The lock is refused if another descriptor below the mark refers to the same device. */
  predicate Granted(s: Pool, fd: nat)
    requires fd < |s.fds|
  {
    forall i :: 0 <= i < s.maxFd && i < |s.fds| && i != fd ==> s.fds[i].dev != s.fds[fd].dev
  }

  function Lock(s: Pool, fd: nat): Pool
    requires fd < |s.fds|
  {
    if Dev(s.fds[fd]) && Granted(s, fd) then s.(fds := s.fds[fd := Locked(s.fds[fd])]) else s
  }

  function Unlock(s: Pool, fd: nat): Pool
    requires fd < |s.fds|
  {
    if Dev(s.fds[fd]) then s.(fds := s.fds[fd := Unlocked(s.fds[fd])]) else s
  }

  /** Pointing one of the standard descriptors somewhere else. */
  function Redirect(s: Pool, fd: nat, dev: Target, flags: bv32, status: int): (r: Pool)
    requires fd < |s.fds|
    ensures |r.fds| == |s.fds|
  {
    var (t, r) := Open(s, dev, flags, status);
    match r
    case Failed(_) => t
    case Opened(i) => Close(t.(fds := t.fds[fd := t.fds[i]]), i)
  }

  // ---- The pool in place ----

  /** The pool at start-up: three descriptors on the null device, and free ones. */
  function Initial(size: nat): Pool
    requires size >= 3
  {
    Pool(seq(size, i => if i < 3 then Entry(DEV_NULL, 0) else FREE), -1)
  }

  predicate Sound(s: Pool) {
    && |s.fds| >= 3 && -1 <= s.maxFd < |s.fds| && (s.maxFd == -1 || s.maxFd >= 3)
    && (forall i :: 0 <= i < 3 ==> s.fds[i].dev != Nothing)
    && (forall i :: 3 <= i < |s.fds| && s.fds[i].dev != Nothing ==> i <= s.maxFd)
    && (forall i :: 0 <= i < |s.fds| && s.fds[i].dev == Nothing ==> s.fds[i] == FREE)
    && (forall i :: 0 <= i < |s.fds| && Excl(s.fds[i]) ==> Dev(s.fds[i]))
    && (forall i :: 0 <= i < |s.fds| && Dev(s.fds[i]) ==> s.fds[i].dev.Device? && s.maxFd >= 3)
  }

  predicate Alone(s: Pool, fd: nat)
    requires fd < |s.fds|
  {
    forall i :: 0 <= i < |s.fds| && i != fd ==> s.fds[i].dev != s.fds[fd].dev
  }

  /** A device has at most one holder; and if that is the descriptor at the mark, it has no other
      descriptor either. */
  predicate Exclusive(s: Pool) {
    && (forall i, j :: 0 <= i < j < |s.fds| && s.fds[i].dev == s.fds[j].dev ==> !(Excl(s.fds[i]) && Excl(s.fds[j])))
    && (3 <= s.maxFd < |s.fds| && Excl(s.fds[s.maxFd]) ==> Alone(s, s.maxFd))
  }

  /** The scan for holders up to the mark, past the new descriptor, misses none. */
  lemma HeldBelow(s: Pool, t: Pool, fd: nat)
    requires Sound(s) && fd < |s.fds| && s.fds[fd].dev == Nothing && t.maxFd == if fd > s.maxFd then fd else s.maxFd
    requires |t.fds| == |s.fds| && (forall i :: 0 <= i < |s.fds| && i != fd ==> t.fds[i] == s.fds[i])
    requires t.fds[fd].dev != Nothing
    ensures Held(s.fds, t.fds[fd].dev) <==>
      exists i :: 0 <= i <= t.maxFd && i != fd && t.fds[i].dev == t.fds[fd].dev && Excl(t.fds[i])
  {
    hide Excl, Dev;
    if Held(s.fds, t.fds[fd].dev) {
      var i :| 0 <= i < |s.fds| && s.fds[i].dev == t.fds[fd].dev && Excl(s.fds[i]);
      assert t.fds[i] == s.fds[i];
    }
  }

  datatype Request = Exclusively | Shared | Other

  lemma OpenSound(s: Pool, dev: Target, flags: bv32, status: int)
    requires Sound(s)
    ensures Sound(Open(s, dev, flags, status).0)
  {
    hide Excl, Dev, Plain, Marked, Held;
  }

  lemma OpenExclusive(s: Pool, dev: Target, flags: bv32, status: int)
    requires Sound(s) && Exclusive(s)
    ensures Exclusive(Open(s, dev, flags, status).0)
  {
    hide Excl, Dev, Plain, Marked;
  }

  lemma OpenKeeps(s: Pool, dev: Target, flags: bv32, status: int)
    requires Sound(s) && Exclusive(s)
    ensures Sound(Open(s, dev, flags, status).0) && Exclusive(Open(s, dev, flags, status).0)
  {
    hide Sound, Exclusive, Open;
    OpenSound(s, dev, flags, status);
    OpenExclusive(s, dev, flags, status);
  }

  lemma FreeFlags()
    ensures forall dev :: !Excl(Entry(dev, 0)) && !Dev(Entry(dev, 0))
  {
  }

  lemma RedirectKeeps(s: Pool, fd: nat, dev: Target, flags: bv32, status: int)
    requires Sound(s) && Exclusive(s) && fd < 3
    ensures Sound(Redirect(s, fd, dev, flags, status)) && Exclusive(Redirect(s, fd, dev, flags, status))
  {
    hide Excl, Dev, Plain, Marked;
    FreeFlags();
    OpenKeeps(s, dev, flags, status);
  }

  class Table {
    const fds: array<Entry>
    var maxFd: int

    function State(): Pool
      reads this, fds
    {
      Pool(fds[..], maxFd)
    }

    constructor (size: nat)
      requires size >= 3
      ensures State() == Initial(size) && fresh(fds)
    {
      fds := new Entry[size](i => if i < 3 then Entry(DEV_NULL, 0) else FREE);
      maxFd := -1;
    }

    /** Takes the first free descriptor for the target. */
    method GetFd(dev: Target) returns (rc: int)
      modifies this, fds
      ensures var s, i := old(State()), FirstFree(old(fds[..]), 0);
        if i == |s.fds| then rc == -EMFILE && State() == s
        else rc == i && State() == Pool(s.fds[i := s.fds[i].(dev := dev)], if i > s.maxFd then i else s.maxFd)
    {
      var i := 0;
      while i < fds.Length
        invariant 0 <= i <= fds.Length && State() == old(State())
        invariant FirstFree(fds[..], 0) == FirstFree(fds[..], i)
      {
        if fds[i].dev == Nothing {
          fds[i] := fds[i].(dev := dev);
          if i > maxFd {
            maxFd := i;
          }
          return i;
        }
        i := i + 1;
      }
      return -EMFILE;
    }

    method ReleaseFd(fd: int)
      requires fd < fds.Length
      modifies fds
      ensures fds[..] == if fd > 2 then old(fds[..])[fd := FREE] else old(fds[..])
    {
      if fd > 2 {
        fds[fd] := FREE;
      }
    }

    /** Marks the descriptor as one of a device, and looks for a holder up to the mark. */
    method FileLocked(fd: nat) returns (rc: int)
      requires fd < fds.Length && fd <= maxFd < fds.Length
      modifies fds
      ensures fds[..] == old(fds[..])[fd := Marked(old(fds[fd]))]
      ensures rc == -EACCES || rc == 0
      ensures rc == 0 <==> forall i :: 0 <= i <= maxFd && i != fd ==> !(fds[i].dev == fds[fd].dev && Excl(fds[i]))
    {
      hide Excl, Marked;
      fds[fd] := Marked(fds[fd]);
      var i := 0;
      while i <= maxFd
        invariant 0 <= i <= maxFd + 1
        invariant forall j :: 0 <= j < i && j != fd ==> !(fds[j].dev == fds[fd].dev && Excl(fds[j]))
      {
        if fds[i].dev == fds[fd].dev && Excl(fds[i]) && i != fd {
          return -EACCES;
        }
        i := i + 1;
      }
      return 0;
    }

    /** The open call; `dev` is what the name stands for, and `status` what its own open function
        returns, or zero if it has none. */
    method OpenFile(dev: Target, flags: bv32, status: int) returns (r: Opened)
      requires Sound(State())
      modifies this, fds
      ensures (State(), r) == Open(old(State()), dev, flags, status)
    {
      hide Excl, Dev, Plain, Marked;
      var index, rc := -1, -ENODEV;
      if dev != Nothing {
        index := GetFd(dev);
        if index < 0 {
          rc := index;
        } else {
          fds[index] := Plain(Entry(fds[index].dev, flags));
          if dev.Device? {
            rc := FileLocked(index);
            HeldBelow(old(State()), State(), index);
          }
          if dev.FileSystem? || rc >= 0 {
            rc := status;
          }
        }
      }
      if rc < 0 {
        ReleaseFd(index);
        assert fds[..] == old(fds[..]);
        return Failed(-rc);
      }
      ghost var plain := Plain(Entry(dev, flags));
      assert fds[..] == old(fds[..])[index := if dev.Device? then Marked(plain) else plain];
      return Opened(index);
    }

    /** The close call; the answer of the device's own close function does not matter to the pool. */
    method CloseFile(fd: int, status: int) returns (rc: int)
      requires fd < fds.Length
      modifies fds
      ensures rc == if fd < 0 || status < 0 then -1 else 0
      ensures State() == if fd < 0 then old(State()) else Close(old(State()), fd)
    {
      if fd < 0 {
        return -1;
      }
      ReleaseFd(fd);
      return if status < 0 then -1 else 0;
    }

    method LockFd(fd: nat) returns (rc: int)
      requires Sound(State()) && fd < fds.Length && Dev(fds[fd])
      modifies fds
      ensures rc == if Granted(old(State()), fd) then 0 else -EACCES
      ensures State() == Lock(old(State()), fd)
    {
      hide Excl, Dev, Locked;
      var i := 0;
      while i < maxFd
        invariant 0 <= i && (i <= maxFd || i == 0) && fds[..] == old(fds[..])
        invariant forall j :: 0 <= j < i && j != fd ==> fds[j].dev != fds[fd].dev
      {
        if i != fd && fds[i].dev == fds[fd].dev {
          assert !Granted(old(State()), fd);
          return -EACCES;
        }
        i := i + 1;
      }
      fds[fd] := Locked(fds[fd]);
      return 0;
    }

    method UnlockFd(fd: nat) returns (rc: int)
      requires fd < fds.Length && Dev(fds[fd])
      modifies fds
      ensures rc == 0 && State() == Unlock(old(State()), fd)
    {
      fds[fd] := Unlocked(fds[fd]);
      return 0;
    }

    /** The ioctl call: the exclusive requests on a device are answered here, and all else by the
        target, if it can. */
    method Ioctl(fd: int, req: Request, answer: int) returns (rc: int)
      requires Sound(State()) && fd < fds.Length
      modifies fds
      ensures fd < 0 ==> rc == -EBADFD && State() == old(State())
      ensures fd >= 0 && req == Exclusively ==> State() == Lock(old(State()), fd)
      ensures fd >= 0 && req == Shared ==> State() == Unlock(old(State()), fd)
      ensures fd >= 0 && req == Other ==> State() == old(State())
      ensures fd >= 0 ==>
        rc == if req == Other || !old(Dev(fds[fd])) then answer
              else if req == Exclusively && !old(Granted(State(), fd)) then -EACCES else 0
    {
      hide Excl, Dev, Locked, Unlocked;
      if fd < 0 {
        return -EBADFD;
      }
      if Dev(fds[fd]) {
        if req == Exclusively {
          rc := LockFd(fd);
          return;
        } else if req == Shared {
          rc := UnlockFd(fd);
          return;
        }
      }
      return answer;
    }

    /** Opens a name for one of the standard descriptors. */
    method OpenFd(fd: nat, dev: Target, flags: bv32, status: int)
      requires Sound(State()) && fd < 3
      modifies this, fds
      ensures State() == Redirect(old(State()), fd, dev, flags, status)
    {
      hide Excl, Dev, Plain, Marked;
      var r := OpenFile(dev, flags, status);
      if r.Opened? {
        fds[fd] := fds[r.fd];
        ReleaseFd(r.fd);
      }
    }

    /** Redirects standard output, input and error, in this order. */
    method IoRedirect(output: Target, input: Target, error: Target, flags: seq<bv32>, status: seq<int>)
      requires Sound(State()) && Exclusive(State()) && |flags| == 3 && |status| == 3
      modifies this, fds
      ensures Sound(State()) && Exclusive(State())
      ensures State() ==
        var s := Redirect(old(State()), 1, output, flags[0], status[0]);
        var t := Redirect(s, 0, input, flags[1], status[1]);
        Redirect(t, 2, error, flags[2], status[2])
    {
      hide Exclusive, Redirect;
      RedirectKeeps(State(), 1, output, flags[0], status[0]);
      OpenFd(1, output, flags[0], status[0]);
      RedirectKeeps(State(), 0, input, flags[1], status[1]);
      OpenFd(0, input, flags[1], status[1]);
      RedirectKeeps(State(), 2, error, flags[2], status[2]);
      OpenFd(2, error, flags[2], status[2]);
    }
  }

  // ---- What every call keeps ----

  datatype Call =
    | OpenCall(dev: Target, flags: bv32, status: int)
    | CloseCall(fd: nat)
    | IoctlCall(fd: nat, req: Request)
    | RedirectCall(fd: nat, dev: Target, flags: bv32, status: int)

  /** Callers name descriptors that are in use, and only the standard ones are redirected. */
  predicate May(s: Pool, c: Call) {
    match c
    case OpenCall(_, _, _) => true
    case CloseCall(fd) => fd < |s.fds| && s.fds[fd].dev != Nothing
    case IoctlCall(fd, _) => fd < |s.fds| && s.fds[fd].dev != Nothing
    case RedirectCall(fd, _, _, _) => fd < 3 <= |s.fds|
  }

  function Step(s: Pool, c: Call): Pool
    requires May(s, c)
  {
    match c
    case OpenCall(dev, flags, status) => Open(s, dev, flags, status).0
    case CloseCall(fd) => Close(s, fd)
    case IoctlCall(fd, req) => if req == Exclusively then Lock(s, fd) else if req == Shared then Unlock(s, fd) else s
    case RedirectCall(fd, dev, flags, status) => Redirect(s, fd, dev, flags, status)
  }

  predicate Legal(s: Pool, cs: seq<Call>)
    decreases |cs|
  {
    cs == [] || (May(s, cs[0]) && Legal(Step(s, cs[0]), cs[1..]))
  }

  function Run(s: Pool, cs: seq<Call>): Pool
    requires Legal(s, cs)
    decreases |cs|
  {
    if cs == [] then s else Run(Step(s, cs[0]), cs[1..])
  }

  lemma CloseKeeps(s: Pool, fd: nat)
    requires Sound(s) && Exclusive(s) && fd < |s.fds|
    ensures Sound(Close(s, fd)) && Exclusive(Close(s, fd))
  {
    hide Excl, Dev;
    FreeFlags();
  }

  lemma LockKeeps(s: Pool, fd: nat)
    requires Sound(s) && Exclusive(s) && fd < |s.fds|
    ensures Sound(Lock(s, fd)) && Exclusive(Lock(s, fd))
  {
    hide Excl, Dev, Locked;
  }

  lemma UnlockKeeps(s: Pool, fd: nat)
    requires Sound(s) && Exclusive(s) && fd < |s.fds|
    ensures Sound(Unlock(s, fd)) && Exclusive(Unlock(s, fd))
  {
    hide Excl, Dev, Unlocked;
  }

  lemma StepKeeps(s: Pool, c: Call)
    requires Sound(s) && Exclusive(s) && May(s, c)
    ensures Sound(Step(s, c)) && Exclusive(Step(s, c))
  {
    hide Sound, Exclusive, Open, Close, Lock, Unlock, Redirect;
    match c
    case OpenCall(dev, flags, status) => OpenKeeps(s, dev, flags, status);
    case CloseCall(fd) => CloseKeeps(s, fd);
    case IoctlCall(fd, _) =>
      LockKeeps(s, fd);
      UnlockKeeps(s, fd);
    case RedirectCall(fd, dev, flags, status) => RedirectKeeps(s, fd, dev, flags, status);
  }

  lemma InitialKeeps(size: nat)
    requires size >= 3
    ensures Sound(Initial(size)) && Exclusive(Initial(size))
    ensures forall i :: 0 <= i < size ==> Initial(size).fds[i] == if i < 3 then Entry(DEV_NULL, 0) else FREE
  {
  }

  lemma {:induction false} RunKeeps(s: Pool, cs: seq<Call>)
    requires Sound(s) && Exclusive(s) && Legal(s, cs)
    ensures Sound(Run(s, cs)) && Exclusive(Run(s, cs))
    decreases |cs|
  {
    hide Sound, Exclusive, Step;
    if cs != [] {
      StepKeeps(s, cs[0]);
      RunKeeps(Step(s, cs[0]), cs[1..]);
    }
  }

  /** In every run from start-up, the standard descriptors stay in use, no other one above the mark
      is, and no two descriptors of a device hold it. */
  lemma EveryRun(size: nat, cs: seq<Call>)
    requires size >= 3 && Legal(Initial(size), cs)
    ensures Sound(Run(Initial(size), cs)) && Exclusive(Run(Initial(size), cs))
  {
    InitialKeeps(size);
    RunKeeps(Initial(size), cs);
  }

  // ---- What a holder may rely on ----

  /** The calls by which a descriptor may lose the exclusive flag. */
  predicate GivesUp(c: Call, fd: nat) {
    match c
    case OpenCall(_, _, _) => false
    case CloseCall(f) => f == fd
    case IoctlCall(f, req) => f == fd && req == Shared
    case RedirectCall(f, _, _, _) => f == fd
  }

  predicate Opens(c: Call, dev: Target) {
    (c.OpenCall? || c.RedirectCall?) && c.dev == dev
  }

  /** No call of the run gives the holder up. */
  predicate Keeping(cs: seq<Call>, fd: nat) {
    forall k :: 0 <= k < |cs| ==> !GivesUp(cs[k], fd)
  }

  /** No call of the run that opens the device succeeds. */
  predicate Refused(s: Pool, cs: seq<Call>, dev: Target)
    requires Legal(s, cs)
    decreases |cs|
  {
    cs == [] ||
    (&& (Opens(cs[0], dev) ==> Open(s, dev, cs[0].flags, cs[0].status).1.Failed?)
     && Refused(Step(s, cs[0]), cs[1..], dev))
  }

  /** Every descriptor of the device in `t` was one in `s`. */
  predicate NoNew(s: Pool, t: Pool, dev: Target) {
    |t.fds| == |s.fds| && forall i :: 0 <= i < |t.fds| && t.fds[i].dev == dev ==> s.fds[i].dev == dev
  }

  lemma OpenLeaves(s: Pool, dev: Target, flags: bv32, status: int, fd: nat)
    requires Sound(s) && fd < |s.fds| && Excl(s.fds[fd])
    ensures var (t, r) := Open(s, dev, flags, status);
      && NoNew(s, t, s.fds[fd].dev) && t.fds[fd] == s.fds[fd]
      && (dev == s.fds[fd].dev ==> r.Failed?)
  {
    hide Excl, Dev, Plain, Marked;
    assert Held(s.fds, s.fds[fd].dev);
  }

  /** A holder is in use, and so are the standard descriptors. */
  lemma InUse(s: Pool, fd: nat)
    requires Sound(s) && fd < |s.fds| && Excl(s.fds[fd])
    ensures s.fds[fd].dev.Device? && forall i :: 0 <= i < 3 ==> s.fds[i].dev != Nothing
  {
    hide Excl, Dev;
  }

  /** What an open takes is a descriptor for what was opened. */
  lemma Moved(s: Pool, dev: Target, flags: bv32, status: int)
    ensures var (t, r) := Open(s, dev, flags, status);
      r.Opened? ==> t.fds[r.fd].dev == dev && forall i :: 0 <= i < |s.fds| && i != r.fd ==> t.fds[i] == s.fds[i]
  {
    hide Excl, Dev, Plain, Marked;
  }

  lemma RedirectLeaves(s: Pool, f: nat, dev: Target, flags: bv32, status: int, fd: nat)
    requires Sound(s) && fd < |s.fds| && Excl(s.fds[fd]) && f < 3 && f != fd
    ensures var t := Redirect(s, f, dev, flags, status);
      NoNew(s, t, s.fds[fd].dev) && t.fds[fd] == s.fds[fd]
  {
    hide Excl, Dev, Sound, Open;
    OpenLeaves(s, dev, flags, status, fd);
    InUse(s, fd);
    Moved(s, dev, flags, status);
  }

  lemma FlagsLeave(s: Pool, f: nat, req: Request, fd: nat)
    requires Sound(s) && fd < |s.fds| && f < |s.fds| && Excl(s.fds[fd]) && !(f == fd && req == Shared)
    ensures var t := if req == Exclusively then Lock(s, f) else if req == Shared then Unlock(s, f) else s;
      NoNew(s, t, s.fds[fd].dev) && t.fds[fd].dev == s.fds[fd].dev && Excl(t.fds[fd])
  {
    hide Excl, Dev, Locked, Unlocked;
  }

  /** A call that does not give the holder up leaves it what it is, neither opens its device nor adds a
      descriptor for it. */
  lemma HolderStays(s: Pool, c: Call, fd: nat)
    requires Sound(s) && fd < |s.fds| && Excl(s.fds[fd]) && May(s, c) && !GivesUp(c, fd)
    ensures var t := Step(s, c);
      && NoNew(s, t, s.fds[fd].dev) && t.fds[fd].dev == s.fds[fd].dev && Excl(t.fds[fd])
      && (Opens(c, s.fds[fd].dev) ==> Open(s, c.dev, c.flags, c.status).1.Failed?)
  {
    hide Excl, Dev, Open, Redirect, Lock, Unlock, Sound, Granted;
    match c
    case OpenCall(dev, flags, status) =>
      OpenLeaves(s, dev, flags, status, fd);
    case CloseCall(f) =>
      InUse(s, fd);
    case IoctlCall(f, req) =>
      FlagsLeave(s, f, req, fd);
    case RedirectCall(f, dev, flags, status) =>
      OpenLeaves(s, dev, flags, status, fd);
      RedirectLeaves(s, f, dev, flags, status, fd);
  }

  /** While a descriptor holds its device, no run opens the device again, be it by name or for a
      standard descriptor. */
  lemma {:induction false} HolderAlwaysStays(s: Pool, cs: seq<Call>, fd: nat)
    requires Sound(s) && Exclusive(s) && fd < |s.fds| && Excl(s.fds[fd]) && Legal(s, cs) && Keeping(cs, fd)
    ensures var t := Run(s, cs);
      NoNew(s, t, s.fds[fd].dev) && t.fds[fd].dev == s.fds[fd].dev && Excl(t.fds[fd])
    ensures Refused(s, cs, s.fds[fd].dev)
    decreases |cs|
  {
    hide Sound, Exclusive, Excl, Step, Open;
    if cs != [] {
      HolderStays(s, cs[0], fd);
      StepKeeps(s, cs[0]);
      HolderAlwaysStays(Step(s, cs[0]), cs[1..], fd);
    }
  }

  /** Redirection moves what it has opened, and touches nothing else. */
  lemma RedirectMoves(s: Pool, fd: nat, dev: Target, flags: bv32, status: int)
    requires Sound(s) && fd < 3
    ensures var t, (u, r) := Redirect(s, fd, dev, flags, status), Open(s, dev, flags, status);
      t.fds == if r.Opened? then s.fds[fd := u.fds[r.fd]] else s.fds
  {
    hide Excl, Dev, Plain, Marked;
    Moved(s, dev, flags, status);
  }

  // ---- What single calls do ----

  /** An open succeeds exactly for a target that exists, with a free descriptor, on a device that nobody
      holds, if the target's own open function agrees. */
  lemma OpenSucceedsIff(s: Pool, dev: Target, flags: bv32, status: int)
    ensures Open(s, dev, flags, status).1.Opened? <==>
      && dev != Nothing && (exists i :: 0 <= i < |s.fds| && s.fds[i].dev == Nothing)
      && !(dev.Device? && Held(s.fds, dev)) && status >= 0
  {
    hide Excl, Dev, Plain, Marked, Held;
  }

  /** What it opens is the first free descriptor, which gets the access mode and is not held; one that
      fails says why and leaves all descriptors as they were. */
  lemma OpenAnswers(s: Pool, dev: Target, flags: bv32, status: int)
    ensures var (t, r) := Open(s, dev, flags, status);
      match r
      case Opened(i) =>
        && (forall j :: 0 <= j < i ==> s.fds[j].dev != Nothing) && s.fds[i].dev == Nothing
        && t.fds == s.fds[i := t.fds[i]] && t.fds[i].dev == dev && t.fds[i].flags & MODE == flags & MODE
        && !Excl(t.fds[i]) && (Dev(t.fds[i]) <==> dev.Device?) && t.maxFd >= i
      case Failed(errno) =>
        && t.fds == s.fds
        && (dev == Nothing ==> errno == ENODEV)
        && (dev != Nothing && (forall j :: 0 <= j < |s.fds| ==> s.fds[j].dev != Nothing) ==> errno == EMFILE)
        && (dev != Nothing && (exists j :: 0 <= j < |s.fds| && s.fds[j].dev == Nothing) ==>
             errno == if dev.Device? && Held(s.fds, dev) then EACCES else -status)
  {
    hide Excl, Dev, Plain, Marked, Held;
  }

  /** A close frees the descriptor, whatever it is, and leaves the others alone. */
  lemma CloseFrees(s: Pool, fd: nat)
    requires fd < |s.fds|
    ensures var t := Close(s, fd);
      t.maxFd == s.maxFd && t.fds == if fd > 2 then s.fds[fd := FREE] else s.fds
  {
  }

  /** Once the holder of a device is closed, the device can be opened again. */
  lemma CloseLetsGo(s: Pool, fd: nat, flags: bv32, status: int)
    requires Sound(s) && Exclusive(s) && 2 < fd < |s.fds| && Excl(s.fds[fd]) && status >= 0
    ensures var dev := s.fds[fd].dev;
      !Held(Close(s, fd).fds, dev) && Open(Close(s, fd), dev, flags, status).1.Opened?
  {
    hide Excl, Dev, Open;
    FreeFlags();
    var t := Close(s, fd);
    InUse(s, fd);
    assert t.fds[fd] == FREE;
    OpenSucceedsIff(t, s.fds[fd].dev, flags, status);
  }

  /** The same once it gives the lock back, as far as there are free descriptors. */
  lemma UnlockLetsGo(s: Pool, fd: nat, flags: bv32, status: int)
    requires Sound(s) && Exclusive(s) && fd < |s.fds| && Excl(s.fds[fd]) && status >= 0
    ensures var t, dev := Unlock(s, fd), s.fds[fd].dev;
      && !Held(t.fds, dev) && t.fds == s.fds[fd := t.fds[fd]] && t.fds[fd].dev == dev
      && (Open(t, dev, flags, status).1.Opened? <==> exists i :: 0 <= i < |s.fds| && s.fds[i].dev == Nothing)
  {
    hide Excl, Dev, Open, Unlocked;
    var t := Unlock(s, fd);
    InUse(s, fd);
    OpenSucceedsIff(t, s.fds[fd].dev, flags, status);
    assert forall i :: 0 <= i < |s.fds| ==> t.fds[i].dev == s.fds[i].dev;
  }

  /** A lock that is granted makes the descriptor the holder; one that is not changes nothing. */
  lemma LockHolds(s: Pool, fd: nat)
    requires Sound(s) && fd < |s.fds|
    ensures var t := Lock(s, fd);
      if Dev(s.fds[fd]) && Granted(s, fd) then
        && t.fds == s.fds[fd := t.fds[fd]] && t.fds[fd].dev == s.fds[fd].dev && Excl(t.fds[fd])
        && t.fds[fd].flags & MODE == s.fds[fd].flags & MODE && t.maxFd == s.maxFd
      else t == s
  {
    hide Excl, Dev, Locked;
  }

  // ---- To whom the lock goes ----

  /** The only descriptor of a device always gets the lock. One that gets it is the only one exactly
      if the mark stands at it or at a descriptor of something else: the scan stops below the mark. */
  lemma GrantedToSoleIff(s: Pool, fd: nat)
    requires Sound(s) && fd < |s.fds| && Dev(s.fds[fd])
    ensures Alone(s, fd) ==> Granted(s, fd)
    ensures Granted(s, fd) ==> (Alone(s, fd) <==> fd == s.maxFd || s.fds[s.maxFd].dev != s.fds[fd].dev)
  {
    hide Excl, Dev;
  }

  lemma OneMore(s: Pool, c: Call, cs: seq<Call>)
    requires May(s, c) && Legal(Step(s, c), cs)
    ensures Legal(s, [c] + cs) && Run(s, [c] + cs) == Run(Step(s, c), cs)
  {
    assert ([c] + cs)[1..] == cs;
  }

  /** It does go to a descriptor that shares its device: to the first of two. */
  lemma GrantedToShared(size: nat, d: nat)
    requires size >= 5 && d != 0
    ensures var cs := [OpenCall(Device(d), 0, 0), OpenCall(Device(d), 0, 0), IoctlCall(3, Exclusively)];
      && Legal(Initial(size), cs) && |Run(Initial(size), cs).fds| == size
      && Excl(Run(Initial(size), cs).fds[3]) && !Alone(Run(Initial(size), cs), 3)
  {
    hide Excl, Dev, Plain, Marked, Locked;
    FreeFlags();
    var call, e := OpenCall(Device(d), 0, 0), Marked(Plain(Entry(Device(d), 0)));
    var s := Initial(size);
    var one := Pool(s.fds[3 := e], 3);
    var two := Pool(one.fds[4 := e], 4);
    var three := two.(fds := two.fds[3 := Locked(e)]);
    assert s.fds[3] == FREE && FirstFree(s.fds, 0) == 3;
    assert !Held(s.fds, Device(d)) && Step(s, call) == one;
    assert one.fds[4] == FREE && FirstFree(one.fds, 0) == 4;
    assert !Held(one.fds, Device(d)) && Step(one, call) == two;
    assert Granted(two, 3) && Step(two, IoctlCall(3, Exclusively)) == three;
    assert three.fds[4].dev == three.fds[3].dev && !Alone(three, 3);
    OneMore(two, IoctlCall(3, Exclusively), []);
    OneMore(one, call, [IoctlCall(3, Exclusively)]);
    OneMore(s, call, [call, IoctlCall(3, Exclusively)]);
  }
}
