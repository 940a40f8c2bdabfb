/** The descriptor table of the HAL and its exclusive-access protocol, as functions on a table value. */
module FdSpec {

  import opened Errno

  const TIOCEXCL := 0x740d
  const TIOCNXCL := 0x740e

  // A device or filesystem is known by a positive number; NULL is zero.
  type Dev = nat
  const NULL: Dev := 0
  const DEV_NULL: Dev := 1

  // A descriptor: excl and isDev are the flag bits ALT_FD_EXCL and ALT_FD_DEV, mode is what ALT_FD_FLAGS_MASK leaves.
  datatype Fd = Fd(dev: Dev, excl: bool, isDev: bool, mode: nat)

  const FREE := Fd(NULL, false, false, 0)

  datatype Table = Table(fds: seq<Fd>, maxFd: int)

  // A result: the table, what the call returns, and the value given to errno (zero if it is left alone).
  datatype Done = Done(t: Table, rc: int, errno: int)

  // What the device list, then the filesystem list, have for a name.
  datatype Target = Nothing | Device(dev: Dev) | FileSystem(dev: Dev)

  // flags & ~ALT_FD_FLAGS_MASK
  function Mode(flags: nat): nat { flags % 0x4000_0000 }

  // ---------------------------------------------------------------- the operations

  function FirstFree(fds: seq<Fd>): (i: nat)
    ensures i <= |fds| && (i < |fds| ==> fds[i].dev == NULL)
    ensures forall k :: 0 <= k < i ==> fds[k].dev != NULL
  {
    if fds == [] || fds[0].dev == NULL then 0 else 1 + FirstFree(fds[1..])
  }

  function GetFd(t: Table, dev: Dev): (Table, int) {
    var i := FirstFree(t.fds);
    if i == |t.fds| then (t, -EMFILE)
    else (Table(t.fds[i := t.fds[i].(dev := dev)], if i > t.maxFd then i else t.maxFd), i)
  }

  function ReleaseFd(t: Table, i: int): Table
    requires i < |t.fds|
  {
    if i > 2 then t.(fds := t.fds[i := t.fds[i].(dev := NULL, excl := false, isDev := false, mode := 0)]) else t
  }

  // Whether another descriptor up to the high-water mark holds the device of descriptor i exclusively.
  predicate FileLocked(t: Table, i: nat)
    requires i < |t.fds| && t.maxFd < |t.fds|
  {
    exists k :: 0 <= k <= t.maxFd && t.fds[k].dev == t.fds[i].dev && t.fds[k].excl && k != i
  }

  // open(): status is what the driver's own open() answers, zero if it has none.
  function Open(t: Table, target: Target, flags: nat, status: int): (d: Done)
    requires -1 <= t.maxFd < |t.fds|
    ensures |d.t.fds| == |t.fds| && -1 <= d.t.maxFd < |t.fds| && -1 <= d.rc < |t.fds|
  {
    if target.Nothing? then Done(t, -1, ENODEV)
    else
      var (g, i) := GetFd(t, target.dev);
      if i < 0 then Done(ReleaseFd(g, i), -1, -i)
      else
        var m := g.(fds := g.fds[i := Fd(target.dev, false, target.Device?, Mode(flags))]);
        var rc := if target.Device? && FileLocked(m, i) then -EACCES else status;
        if rc < 0 then Done(ReleaseFd(m, i), -1, -rc) else Done(m, i, 0)
  }

  // close(): status is what the driver's close() answers.
  function Close(t: Table, i: int, status: int): Done
    requires i < |t.fds|
  {
    if i < 0 then Done(t, -1, EBADFD)
    else if status < 0 then Done(ReleaseFd(t, i), -1, -status)
    else Done(ReleaseFd(t, i), 0, 0)
  }

  // alt_fd_lock scans below the high-water mark only.
  predicate OtherBelowMark(t: Table, i: nat)
    requires i < |t.fds| && t.maxFd <= |t.fds|
  {
    exists k :: 0 <= k < t.maxFd && k != i && t.fds[k].dev == t.fds[i].dev
  }

  function Lock(t: Table, i: nat): (Table, int)
    requires i < |t.fds| && t.maxFd <= |t.fds|
  {
    if OtherBelowMark(t, i) then (t, -EACCES) else (t.(fds := t.fds[i := t.fds[i].(excl := true)]), 0)
  }

  function Unlock(t: Table, i: nat): (Table, int)
    requires i < |t.fds|
  {
    (t.(fds := t.fds[i := t.fds[i].(excl := false)]), 0)
  }

  // The driver's own ioctl, if it has one.
  datatype Driver = NoIoctl | Answers(rc: int)

  function Ioctl(t: Table, i: int, req: int, driver: Driver): Done
    requires i < |t.fds| && t.maxFd <= |t.fds|
  {
    var (t', rc) :=
      if i < 0 then (t, -EBADFD)
      else if t.fds[i].isDev && req == TIOCEXCL then Lock(t, i)
      else if t.fds[i].isDev && req == TIOCNXCL then Unlock(t, i)
      else (t, if driver.Answers? then driver.rc else -ENOTTY);
    Done(t', rc, if rc < 0 then -rc else 0)
  }

  // alt_open_fd: opens the name, copies the descriptor into slot k and gives the opened one back.
  function OpenFd(t: Table, k: nat, target: Target, flags: nat, status: int): (t': Table)
    requires -1 <= t.maxFd < |t.fds| && k < |t.fds|
    ensures |t'.fds| == |t.fds| && -1 <= t'.maxFd < |t.fds|
  {
    var d := Open(t, target, flags, status);
    if d.rc >= 0 then ReleaseFd(d.t.(fds := d.t.fds[k := d.t.fds[d.rc]]), d.rc) else d.t
  }

  // One name given to alt_io_redirect.
  datatype Stream = Stream(target: Target, status: int)

  const O_RDONLY := 0
  const O_WRONLY := 1

  function Redirect(t: Table, stdout: Stream, stdin: Stream, stderr: Stream): Table
    requires -1 <= t.maxFd < |t.fds| && 3 <= |t.fds|
  {
    var t1 := OpenFd(t, 1, stdout.target, O_WRONLY, stdout.status);
    var t2 := OpenFd(t1, 0, stdin.target, O_RDONLY, stdin.status);
    OpenFd(t2, 2, stderr.target, O_WRONLY, stderr.status)
  }

  // ---------------------------------------------------------------- runs

  datatype Op =
    | DoOpen(target: Target, flags: nat, status: int)
    | DoClose(fd: int, status: int)
    | DoIoctl(fd: int, req: int, driver: Driver)
    | DoRedirect(stdout: Stream, stdin: Stream, stderr: Stream)

  // Start-up: three descriptors on /dev/null, the rest free.
  function Start(n: nat): (t: Table)
    requires 3 <= n
    ensures |t.fds| == n
  {
    Table(seq(3, _ => Fd(DEV_NULL, false, false, 0)) + seq(n - 3, _ => FREE), -1)
  }

  // The device list and the filesystem list are disjoint and hold no NULL.
  ghost predicate TargetOk(target: Target, devices: set<Dev>) {
    match target
    case Nothing => true
    case Device(d) => d in devices && d != NULL
    case FileSystem(d) => d !in devices && d != NULL
  }

  // A descriptor argument is negative or an open descriptor: close() and ioctl() follow its device pointer unchecked.
  ghost predicate FdOk(t: Table, i: int) {
    i < 0 || (i < |t.fds| && t.fds[i].dev != NULL)
  }

  ghost predicate Legal(t: Table, op: Op, devices: set<Dev>) {
    match op
    case DoOpen(target, _, _) => TargetOk(target, devices)
    case DoClose(i, _) => FdOk(t, i)
    case DoIoctl(i, _, _) => FdOk(t, i)
    case DoRedirect(o, i, e) => TargetOk(o.target, devices) && TargetOk(i.target, devices) && TargetOk(e.target, devices)
  }

  ghost function Apply(t: Table, op: Op, devices: set<Dev>): Table
    requires Inv(t, devices) && Legal(t, op, devices)
  {
    match op
    case DoOpen(target, flags, status) => Open(t, target, flags, status).t
    case DoClose(i, status) => Close(t, i, status).t
    case DoIoctl(i, req, driver) => Ioctl(t, i, req, driver).t
    case DoRedirect(o, i, e) => Redirect(t, o, i, e)
  }

  /** Every sequence of calls from start-up keeps the invariant; a call that is not legal where it stands is skipped. */
  ghost function Run(n: nat, ops: seq<Op>, devices: set<Dev>): (t: Table)
    requires 3 <= n
    ensures Inv(t, devices) && |t.fds| == n
  {
    StartInv(n, devices);
    if ops == [] then Start(n)
    else
      var p := Run(n, ops[..|ops| - 1], devices);
      var op := ops[|ops| - 1];
      if Legal(p, op, devices) then
        ApplyKeepsInv(p, op, devices);
        Apply(p, op, devices)
      else p
  }

  // ---------------------------------------------------------------- the invariant

  ghost predicate Inv(t: Table, devices: set<Dev>) {
    && 3 <= |t.fds| && -1 <= t.maxFd < |t.fds|
    && (forall i :: 0 <= i < 3 ==> t.fds[i].dev != NULL)
    && (forall i :: 3 <= i < |t.fds| && t.fds[i].dev != NULL ==> i <= t.maxFd)
    && (forall i :: 0 <= i < |t.fds| && t.fds[i].dev == NULL ==> t.fds[i] == FREE)
    && (forall i :: 0 <= i < |t.fds| && t.fds[i].excl ==> t.fds[i].isDev)
    && (forall i :: 0 <= i < |t.fds| && t.fds[i].isDev ==> t.fds[i].dev in devices && 3 <= t.maxFd)
    && HoldersLead(t)
  }

  // Any other descriptor on a device that is held lies above its holder, and not beyond the high-water mark.
  ghost predicate HoldersLead(t: Table) {
    forall h, x :: 0 <= h < |t.fds| && 0 <= x < |t.fds| && h != x && t.fds[h].excl && t.fds[x].dev == t.fds[h].dev ==>
      h < x <= t.maxFd
  }

  ghost predicate Held(t: Table, d: Dev) {
    exists h :: 0 <= h < |t.fds| && t.fds[h].excl && t.fds[h].dev == d
  }

  lemma StartInv(n: nat, devices: set<Dev>)
    requires 3 <= n
    ensures Inv(Start(n), devices)
  {
    assert forall i :: 3 <= i < n ==> Start(n).fds[i] == FREE;
  }

  // A holder is never beyond the mark, so open() finds it.
  lemma HeldIsFound(t: Table, h: nat, devices: set<Dev>)
    requires Inv(t, devices) && h < |t.fds| && t.fds[h].excl
    ensures h <= t.maxFd && 3 <= t.maxFd && t.fds[h].dev in devices && t.fds[h].dev != NULL
  {
  }

  // Taking a free slot above 2 for a device nobody holds.
  lemma TakeKeepsInv(t: Table, i: nat, fd: Fd, devices: set<Dev>)
    requires Inv(t, devices) && 3 <= i < |t.fds| && t.fds[i] == FREE
    requires fd.dev != NULL && !fd.excl && (fd.isDev ==> fd.dev in devices) && !Held(t, fd.dev)
    ensures Inv(Table(t.fds[i := fd], if i > t.maxFd then i else t.maxFd), devices)
  {
  }

  // A higher mark is no less true.
  lemma RaiseKeepsInv(t: Table, m: int, devices: set<Dev>)
    requires Inv(t, devices) && t.maxFd <= m < |t.fds|
    ensures Inv(t.(maxFd := m), devices)
  {
  }

  lemma ReleaseKeepsInv(t: Table, i: int, devices: set<Dev>)
    requires Inv(t, devices) && i < |t.fds|
    ensures Inv(ReleaseFd(t, i), devices) && |ReleaseFd(t, i).fds| == |t.fds| && ReleaseFd(t, i).maxFd == t.maxFd
  {
  }

  // Whoever holds the device of a slot just filled is found by the scan of open().
  lemma LockedIffHeld(t: Table, i: nat, fd: Fd, devices: set<Dev>)
    requires Inv(t, devices) && 3 <= i < |t.fds| && t.fds[i] == FREE && fd.dev != NULL
    ensures var m := Table(t.fds[i := fd], if i > t.maxFd then i else t.maxFd);
      FileLocked(m, i) <==> Held(t, fd.dev)
  {
    var m := Table(t.fds[i := fd], if i > t.maxFd then i else t.maxFd);
    if Held(t, fd.dev) {
      var h :| 0 <= h < |t.fds| && t.fds[h].excl && t.fds[h].dev == fd.dev;
      HeldIsFound(t, h, devices);
      assert m.fds[h] == t.fds[h];
    }
    if FileLocked(m, i) {
      var k :| 0 <= k <= m.maxFd && m.fds[k].dev == m.fds[i].dev && m.fds[k].excl && k != i;
      assert t.fds[k] == m.fds[k];
    }
  }

  // open() in terms of the first free slot.
  lemma OpenCases(t: Table, target: Target, flags: nat, status: int, devices: set<Dev>)
    requires Inv(t, devices) && TargetOk(target, devices)
    ensures var d := Open(t, target, flags, status);
            var i := FirstFree(t.fds);
            var mark := if i > t.maxFd then i else t.maxFd;
      if target.Nothing? then d == Done(t, -1, ENODEV)
      else if i == |t.fds| then d == Done(t, -1, EMFILE)
      else
        var fd := Fd(target.dev, false, target.Device?, Mode(flags));
        && 3 <= i && t.fds[i] == FREE
        && d == if target.Device? && Held(t, target.dev) then Done(t.(maxFd := mark), -1, EACCES)
                else if status < 0 then Done(t.(maxFd := mark), -1, -status)
                else Done(Table(t.fds[i := fd], mark), i, 0)
  {
    var i := FirstFree(t.fds);
    if !target.Nothing? && i < |t.fds| {
      var fd := Fd(target.dev, false, target.Device?, Mode(flags));
      var mark := if i > t.maxFd then i else t.maxFd;
      assert 3 <= i;
      LockedIffHeld(t, i, fd, devices);
      assert GetFd(t, target.dev).0.fds[i := fd] == t.fds[i := fd];
      assert t.fds[i := fd][i := FREE] == t.fds;
    }
  }

  lemma OpenKeepsInv(t: Table, target: Target, flags: nat, status: int, devices: set<Dev>)
    requires Inv(t, devices) && TargetOk(target, devices)
    ensures Inv(Open(t, target, flags, status).t, devices)
  {
    assert -1 <= t.maxFd < |t.fds|;
    hide Inv, Open;
    OpenCases(t, target, flags, status, devices);
    var i := FirstFree(t.fds);
    if !target.Nothing? && i < |t.fds| {
      var mark := if i > t.maxFd then i else t.maxFd;
      RaiseKeepsInv(t, mark, devices);
      if !(target.Device? && Held(t, target.dev)) && status >= 0 {
        if target.FileSystem? { FilesystemsAreNotHeld(t, target.dev, devices); }
        TakeKeepsInv(t, i, Fd(target.dev, false, target.Device?, Mode(flags)), devices);
      }
    }
  }

  lemma FilesystemsAreNotHeld(t: Table, d: Dev, devices: set<Dev>)
    requires Inv(t, devices) && d !in devices
    ensures !Held(t, d)
  {
  }

  // The lock is granted, and leaves the holder below every other descriptor on its device.
  lemma LockKeepsInv(t: Table, i: nat, devices: set<Dev>)
    requires Inv(t, devices) && i < |t.fds| && t.fds[i].isDev
    ensures Inv(Lock(t, i).0, devices)
  {
    var r := Lock(t, i).0;
    if !OtherBelowMark(t, i) {
      assert i <= t.maxFd;
      forall x | 0 <= x < |t.fds| && x != i && t.fds[x].dev == t.fds[i].dev ensures x == t.maxFd {
        assert !(0 <= x < t.maxFd);
      }
    }
  }

  lemma UnlockKeepsInv(t: Table, i: nat, devices: set<Dev>)
    requires Inv(t, devices) && i < |t.fds|
    ensures Inv(Unlock(t, i).0, devices)
  {
  }

  // Copying a fresh descriptor over a standard stream.
  lemma CopyKeepsInv(t: Table, k: nat, i: nat, devices: set<Dev>)
    requires Inv(t, devices) && k < 3 <= i < |t.fds| && t.fds[i].dev != NULL && !Held(t, t.fds[i].dev)
    ensures Inv(t.(fds := t.fds[k := t.fds[i]]), devices)
  {
    assert !t.fds[i].excl;
  }

  lemma OpenFdKeepsInv(t: Table, k: nat, target: Target, flags: nat, status: int, devices: set<Dev>)
    requires Inv(t, devices) && k < 3 && TargetOk(target, devices)
    ensures Inv(OpenFd(t, k, target, flags, status), devices)
  {
    assert -1 <= t.maxFd < |t.fds|;
    hide Inv, Open;
    OpenKeepsInv(t, target, flags, status, devices);
    OpenCases(t, target, flags, status, devices);
    var d := Open(t, target, flags, status);
    if d.rc >= 0 {
      if target.FileSystem? { FilesystemsAreNotHeld(t, target.dev, devices); }
      FreshIsNotHeld(t, d.rc, d.t.fds[d.rc], d.t.maxFd);
      CopyKeepsInv(d.t, k, d.rc, devices);
      ReleaseKeepsInv(d.t.(fds := d.t.fds[k := d.t.fds[d.rc]]), d.rc, devices);
    }
  }

  lemma FreshIsNotHeld(t: Table, i: nat, fd: Fd, mark: int)
    requires i < |t.fds| && t.fds[i] == FREE && !fd.excl && !Held(t, fd.dev)
    ensures !Held(Table(t.fds[i := fd], mark), fd.dev)
  {
    var r := Table(t.fds[i := fd], mark);
    assert forall h :: 0 <= h < |t.fds| && h != i ==> r.fds[h] == t.fds[h];
  }

  lemma ApplyKeepsInv(t: Table, op: Op, devices: set<Dev>)
    requires Inv(t, devices) && Legal(t, op, devices)
    ensures Inv(Apply(t, op, devices), devices) && |Apply(t, op, devices).fds| == |t.fds|
  {
    match op
    case DoOpen(target, flags, status) => OpenKeepsInv(t, target, flags, status, devices);
    case DoClose(i, _) => ReleaseKeepsInv(t, i, devices);
    case DoIoctl(i, _, _) => if i >= 0 && t.fds[i].isDev { LockKeepsInv(t, i, devices); UnlockKeepsInv(t, i, devices); }
    case DoRedirect(o, i, e) =>
      var t1 := OpenFd(t, 1, o.target, O_WRONLY, o.status);
      OpenFdKeepsInv(t, 1, o.target, O_WRONLY, o.status, devices);
      OpenFdKeepsInv(t1, 0, i.target, O_RDONLY, i.status, devices);
      OpenFdKeepsInv(OpenFd(t1, 0, i.target, O_RDONLY, i.status), 2, e.target, O_WRONLY, e.status, devices);
  }

  // ---------------------------------------------------------------- what holds in every run

  /** Mutual exclusion: in every state any sequence of open, close, TIOCEXCL, TIOCNXCL and redirection reaches, two
      descriptors with the exclusive flag are on different devices, and both are open device descriptors. */
  lemma MutualExclusion(n: nat, ops: seq<Op>, devices: set<Dev>, h: nat, k: nat)
    requires 3 <= n && h < n && k < n && h != k
    ensures var t := Run(n, ops, devices);
      t.fds[h].excl && t.fds[k].excl ==>
        t.fds[h].dev != t.fds[k].dev && t.fds[h].dev != NULL && t.fds[h].isDev && t.fds[k].isDev
  {
    hide Run;
    var t := Run(n, ops, devices);
    assert HoldersLead(t);
  }

  // The descriptors on a device.
  ghost function On(t: Table, d: Dev): set<int> {
    set i | 0 <= i < |t.fds| && t.fds[i].dev == d
  }

  /** While a device is held, every open of it answers -1 and leaves the descriptors alone. */
  lemma HeldMeansNoOpen(n: nat, ops: seq<Op>, devices: set<Dev>, d: Dev, flags: nat, status: int)
    requires 3 <= n && d in devices && d != NULL && Held(Run(n, ops, devices), d)
    ensures var t := Run(n, ops, devices); var r := Open(t, Device(d), flags, status);
      r.rc == -1 && r.t.fds == t.fds && r.errno in {EACCES, EMFILE}
  {
    hide Run, Open;
    OpenCases(Run(n, ops, devices), Device(d), flags, status, devices);
  }

  // One redirection leaves a held device to its descriptors, and its holder in place unless it is the slot copied to.
  lemma OpenFdKeepsOff(t: Table, k: nat, target: Target, flags: nat, status: int, devices: set<Dev>, h: nat)
    requires Inv(t, devices) && k < 3 && TargetOk(target, devices) && h < |t.fds| && t.fds[h].excl
    ensures var r := OpenFd(t, k, target, flags, status);
      && On(r, t.fds[h].dev) <= On(t, t.fds[h].dev)
      && (h != k ==> r.fds[h] == t.fds[h])
  {
    assert -1 <= t.maxFd < |t.fds|;
    HeldIsFound(t, h, devices);
    OpenCases(t, target, flags, status, devices);
    assert Held(t, t.fds[h].dev);
    hide Inv, Open, Held;
    var d := Open(t, target, flags, status);
    var r := OpenFd(t, k, target, flags, status);
    if d.rc >= 0 {
      assert target.dev != t.fds[h].dev;
      assert forall j :: 0 <= j < |t.fds| && j != k ==> r.fds[j] == t.fds[j];
      assert r.fds[k].dev == target.dev;
    }
  }

  // In a redirection, the slot of the holder is redirected successfully before the last: stdout comes first, then stdin, then
  // stderr.
  predicate LosesSlot(t: Table, o: Stream, i: Stream, h: nat)
    requires -1 <= t.maxFd < |t.fds| && 3 <= |t.fds|
  {
    || (h == 1 && Open(t, o.target, O_WRONLY, o.status).rc >= 0)
    || (h == 0 && Open(OpenFd(t, 1, o.target, O_WRONLY, o.status), i.target, O_RDONLY, i.status).rc >= 0)
  }

  // A redirection of the holder's own slot that fails leaves it alone.
  lemma FailedOpenFdKeeps(t: Table, k: nat, target: Target, flags: nat, status: int, devices: set<Dev>)
    requires Inv(t, devices) && k < 3 && TargetOk(target, devices) && Open(t, target, flags, status).rc < 0
    ensures OpenFd(t, k, target, flags, status).fds == t.fds
  {
    OpenCases(t, target, flags, status, devices);
    hide Open, Inv;
  }

  lemma RedirectKeepsOff(t: Table, o: Stream, i: Stream, e: Stream, devices: set<Dev>, h: nat)
    requires Inv(t, devices) && h < |t.fds| && t.fds[h].excl && !LosesSlot(t, o, i, h)
    requires TargetOk(o.target, devices) && TargetOk(i.target, devices) && TargetOk(e.target, devices)
    ensures On(Redirect(t, o, i, e), t.fds[h].dev) <= On(t, t.fds[h].dev)
  {
    hide Open, OpenFd, Inv;
    assert -1 <= t.maxFd < |t.fds| && 3 <= |t.fds| by { Shape(t, devices); }
    var t1 := OpenFd(t, 1, o.target, O_WRONLY, o.status);
    OpenFdKeepsInv(t, 1, o.target, O_WRONLY, o.status, devices);
    OpenFdKeepsOff(t, 1, o.target, O_WRONLY, o.status, devices, h);
    if h == 1 { FailedOpenFdKeeps(t, 1, o.target, O_WRONLY, o.status, devices); }
    var t2 := OpenFd(t1, 0, i.target, O_RDONLY, i.status);
    OpenFdKeepsInv(t1, 0, i.target, O_RDONLY, i.status, devices);
    OpenFdKeepsOff(t1, 0, i.target, O_RDONLY, i.status, devices, h);
    if h == 0 { FailedOpenFdKeeps(t1, 0, i.target, O_RDONLY, i.status, devices); }
    OpenFdKeepsOff(t2, 2, e.target, O_WRONLY, e.status, devices, h);
  }

  lemma Shape(t: Table, devices: set<Dev>)
    requires Inv(t, devices)
    ensures -1 <= t.maxFd < |t.fds| && 3 <= |t.fds|
  {
  }

  /** While a device is held, no call puts another descriptor on it; the one exception is a redirection in which the holder's
      own slot, being a standard stream, is successfully redirected before the last. */
  lemma HeldNeverGrows(n: nat, ops: seq<Op>, op: Op, devices: set<Dev>, h: nat)
    requires 3 <= n && h < n && Run(n, ops, devices).fds[h].excl
    requires Legal(Run(n, ops, devices), op, devices)
    requires op.DoRedirect? ==> !LosesSlot(Run(n, ops, devices), op.stdout, op.stdin, h)
    ensures var t := Run(n, ops, devices); On(Apply(t, op, devices), t.fds[h].dev) <= On(t, t.fds[h].dev)
  {
    hide Run;
    var t := Run(n, ops, devices);
    HeldIsFound(t, h, devices);
    assert Held(t, t.fds[h].dev);
    match op
    case DoOpen(target, flags, status) => OpenCases(t, target, flags, status, devices);
    case DoClose(_, _) =>
    case DoIoctl(_, _, _) =>
    case DoRedirect(o, i, e) => RedirectKeepsOff(t, o, i, e, devices, h);
  }

  /** The exception: a standard stream that holds a device loses it, and the device is held no longer, when it is
      redirected to another. */
  lemma RedirectedHolderLosesLock(n: nat, ops: seq<Op>, devices: set<Dev>, h: nat, target: Target, flags: nat,
                                  status: int)
    requires 3 <= n && h < 3 && Run(n, ops, devices).fds[h].excl && TargetOk(target, devices)
    requires Open(Run(n, ops, devices), target, flags, status).rc >= 0
    ensures var t := Run(n, ops, devices);
      !Held(OpenFd(t, h, target, flags, status), t.fds[h].dev)
  {
    hide Run;
    var t := Run(n, ops, devices);
    HeldIsFound(t, h, devices);
    OpenCases(t, target, flags, status, devices);
    hide Open;
    assert Held(t, t.fds[h].dev);
    var r := OpenFd(t, h, target, flags, status);
    forall k | 0 <= k < n && r.fds[k].excl ensures r.fds[k].dev != t.fds[h].dev {
      assert k != h && r.fds[k] == t.fds[k];
      assert HoldersLead(t);
    }
  }

  /** TIOCNXCL on the holder lets the device be opened again: no open of it is refused as locked. */
  lemma UnlockLetsOpen(n: nat, ops: seq<Op>, devices: set<Dev>, i: nat, driver: Driver, flags: nat, status: int)
    requires 3 <= n && i < n && Run(n, ops, devices).fds[i].excl
    ensures var t := Run(n, ops, devices); var u := Ioctl(t, i, TIOCNXCL, driver); var d := t.fds[i].dev;
      && u.rc == 0 && !Held(u.t, d)
      && var o := Open(u.t, Device(d), flags, status);
         o.rc == if FirstFree(u.t.fds) < n && status >= 0 then FirstFree(u.t.fds) as int else -1
  {
    hide Run;
    var t := Run(n, ops, devices);
    var u := Ioctl(t, i, TIOCNXCL, driver).t;
    forall k | 0 <= k < n && u.fds[k].excl ensures u.fds[k].dev != t.fds[i].dev {
      assert k != i && u.fds[k] == t.fds[k];
      assert HoldersLead(t);
    }
    UnlockKeepsInv(t, i, devices);
    OpenCases(u, Device(t.fds[i].dev), flags, status, devices);
    hide Open, Inv;
  }

  /** A failed open gives every descriptor back as it was. */
  lemma FailedOpenRestores(n: nat, ops: seq<Op>, devices: set<Dev>, target: Target, flags: nat, status: int)
    requires 3 <= n && TargetOk(target, devices)
    ensures var t := Run(n, ops, devices); var d := Open(t, target, flags, status);
      d.rc < 0 ==> d.rc == -1 && d.t.fds == t.fds && d.errno > 0
  {
    hide Run, Open, Inv;
    OpenCases(Run(n, ops, devices), target, flags, status, devices);
  }

  /** When TIOCEXCL is granted: exactly when no other descriptor on the device lies below the high-water mark. The
      holder is then alone on its device exactly when the descriptor at the mark is itself or is on another device. */
  lemma LockGrantedIff(n: nat, ops: seq<Op>, devices: set<Dev>, i: nat, driver: Driver)
    requires 3 <= n && i < n && Run(n, ops, devices).fds[i].isDev
    ensures var t := Run(n, ops, devices); var r := Ioctl(t, i, TIOCEXCL, driver);
      && (r.rc == 0 <==> forall k :: 0 <= k < t.maxFd && k != i ==> t.fds[k].dev != t.fds[i].dev)
      && (r.rc != 0 ==> r == Done(t, -EACCES, EACCES))
      && (r.rc == 0 ==> r.t == t.(fds := t.fds[i := t.fds[i].(excl := true)]) && Held(r.t, t.fds[i].dev))
      && (r.rc == 0 ==> (On(r.t, t.fds[i].dev) == {i as int} <==>
           t.maxFd == i || t.fds[t.maxFd].dev != t.fds[i].dev))
  {
    hide Run;
    var t := Run(n, ops, devices);
    var r := Ioctl(t, i, TIOCEXCL, driver);
    var d := t.fds[i].dev;
    if r.rc == 0 {
      assert i <= t.maxFd;
      assert r.t.fds[i].excl && r.t.fds[i].dev == d;
      forall x | x in On(r.t, d) && x != i ensures x == t.maxFd {
        assert !(0 <= x < t.maxFd);
      }
      assert i in On(r.t, d);
      if t.maxFd != i && t.fds[t.maxFd].dev == d { assert t.maxFd in On(r.t, d); }
    }
  }

  lemma RunSnoc(n: nat, ops: seq<Op>, op: Op, devices: set<Dev>)
    requires 3 <= n && Legal(Run(n, ops, devices), op, devices)
    ensures Run(n, ops + [op], devices) == Apply(Run(n, ops, devices), op, devices)
  {
    assert (ops + [op])[..|ops|] == ops;
  }

  lemma OpenTakes(t: Table, i: nat, d: Dev, devices: set<Dev>)
    requires Inv(t, devices) && d in devices && d != NULL && !Held(t, d)
    requires i < |t.fds| && t.fds[i].dev == NULL && forall k :: 0 <= k < i ==> t.fds[k].dev != NULL
    ensures Open(t, Device(d), 0, 0) ==
      Done(Table(t.fds[i := Fd(d, false, true, 0)], if i > t.maxFd then i else t.maxFd), i, 0)
  {
    OpenCases(t, Device(d), 0, 0, devices);
  }

  const OPEN_2 := DoOpen(Device(2), 0, 0)

  lemma TwoOpens(devices: set<Dev>)
    requires 2 in devices
    ensures Run(5, [] + [OPEN_2] + [OPEN_2], devices) ==
      Table(Start(5).fds[3 := Fd(2, false, true, 0)][4 := Fd(2, false, true, 0)], 4)
  {
    var t0, fd := Start(5), Fd(2, false, true, 0);
    assert Run(5, [], devices) == t0;
    hide Run, Open, Inv;
    OpenTakes(t0, 3, 2, devices);
    RunSnoc(5, [], OPEN_2, devices);
    OpenTakes(Table(t0.fds[3 := fd], 3), 4, 2, devices);
    RunSnoc(5, [] + [OPEN_2], OPEN_2, devices);
  }

  /** The lock can be granted with another descriptor open on the device: two opens, then TIOCEXCL on the first. */
  lemma LockBesideAnother(devices: set<Dev>)
    requires 2 in devices
    ensures var t := Run(5, [] + [OPEN_2] + [OPEN_2] + [DoIoctl(3, TIOCEXCL, NoIoctl)], devices);
      t.fds[3].excl && t.fds[3].dev == t.fds[4].dev == 2
  {
    hide Run, Inv;
    TwoOpens(devices);
    var t := Run(5, [] + [OPEN_2] + [OPEN_2], devices);
    assert !OtherBelowMark(t, 3);
    RunSnoc(5, [] + [OPEN_2] + [OPEN_2], DoIoctl(3, TIOCEXCL, NoIoctl), devices);
  }

  /** close() gives up a lock exactly for descriptors above 2: a standard stream keeps its descriptor, and with it the
      exclusive flag. */
  lemma CloseReleasesIff(n: nat, ops: seq<Op>, devices: set<Dev>, i: nat, status: int)
    requires 3 <= n && i < n && Run(n, ops, devices).fds[i].excl
    ensures var t := Run(n, ops, devices);
      !Held(Close(t, i, status).t, t.fds[i].dev) <==> i > 2
  {
    hide Run;
    var t := Run(n, ops, devices);
    var r := Close(t, i, status).t;
    if i > 2 {
      forall h | 0 <= h < n && r.fds[h].excl ensures r.fds[h].dev != t.fds[i].dev {
        assert h != i && r.fds[h] == t.fds[h];
        assert HoldersLead(t);
      }
    }
  }

  const TO_2 := DoRedirect(Stream(Device(2), 0), Stream(Nothing, 0), Stream(Nothing, 0))

  // What an OpenFd that succeeds does, and one of a name that is not found.
  lemma OpenFdCopies(t: Table, k: nat, target: Target, flags: nat)
    requires -1 <= t.maxFd < |t.fds| && k < 3 <= FirstFree(t.fds) < |t.fds| && !target.Nothing?
    requires var i := FirstFree(t.fds); var fd := Fd(target.dev, false, target.Device?, Mode(flags));
      && t.fds[i] == FREE
      && Open(t, target, flags, 0) == Done(Table(t.fds[i := fd], if i > t.maxFd then i else t.maxFd), i, 0)
    ensures var i := FirstFree(t.fds); var fd := Fd(target.dev, false, target.Device?, Mode(flags));
      OpenFd(t, k, target, flags, 0) == Table(t.fds[k := fd], if i > t.maxFd then i else t.maxFd)
  {
    hide Open, FirstFree;
    var i := FirstFree(t.fds);
    var fd := Fd(target.dev, false, target.Device?, Mode(flags));
    assert t.fds[i := fd][k := fd][i := FREE] == t.fds[k := fd];
  }

  lemma NoSuchName(t: Table, k: nat, flags: nat)
    requires -1 <= t.maxFd < |t.fds| && k < |t.fds|
    ensures OpenFd(t, k, Nothing, flags, 0) == t
  {
  }

  lemma FirstOpenAtStart(devices: set<Dev>)
    requires 2 in devices
    ensures FirstFree(Start(5).fds) == 3 && Start(5).fds[3] == FREE && Mode(O_WRONLY) == 1
    ensures Open(Start(5), Device(2), O_WRONLY, 0) == Done(Table(Start(5).fds[3 := Fd(2, false, true, 1)], 3), 3, 0)
  {
    StartInv(5, devices);
    OpenCases(Start(5), Device(2), O_WRONLY, 0, devices);
    assert forall k :: 0 <= k < 3 ==> Start(5).fds[k].dev != NULL;
    assert FirstFree(Start(5).fds) == 3;
    hide Open, Inv, FirstFree;
  }

  lemma RedirectTo2(devices: set<Dev>)
    requires 2 in devices
    ensures Run(5, [] + [TO_2], devices) == Table(Start(5).fds[1 := Fd(2, false, true, 1)], 3)
  {
    var t0 := Start(5);
    assert Run(5, [], devices) == t0;
    hide Run, Open, Inv, FirstFree, OpenFd, Start;
    FirstOpenAtStart(devices);
    RunSnoc(5, [], TO_2, devices);
    OpenFdCopies(t0, 1, Device(2), O_WRONLY);
    var t1 := OpenFd(t0, 1, Device(2), O_WRONLY, 0);
    NoSuchName(t1, 0, O_RDONLY);
    NoSuchName(t1, 2, O_WRONLY);
  }

  /** A standard stream does come to hold a device: redirected to it and locked, descriptor 1 keeps it through a close. */
  lemma StreamKeepsLock(devices: set<Dev>)
    requires 2 in devices
    ensures var t := Run(5, [] + [TO_2] + [DoIoctl(1, TIOCEXCL, NoIoctl)], devices);
      t.fds[1].excl && t.fds[1].dev == 2 && Held(Close(t, 1, 0).t, 2)
  {
    hide Run, Inv;
    RedirectTo2(devices);
    var t := Run(5, [] + [TO_2], devices);
    assert !OtherBelowMark(t, 1);
    RunSnoc(5, [] + [TO_2], DoIoctl(1, TIOCEXCL, NoIoctl), devices);
    var u := Run(5, [] + [TO_2] + [DoIoctl(1, TIOCEXCL, NoIoctl)], devices);
    assert u.fds[1].excl && u.fds[1].dev == 2;
  }

  // ---------------------------------------------------------------- what each call does, for the caller

  /** close(): a negative descriptor is EBADFD and changes nothing; the driver's failure is reported; and in either case an open
      descriptor above 2 is free afterwards, and nothing else has changed. */
  lemma CloseCases(n: nat, ops: seq<Op>, devices: set<Dev>, i: int, status: int)
    requires 3 <= n && FdOk(Run(n, ops, devices), i)
    ensures var t := Run(n, ops, devices); var d := Close(t, i, status);
      && d.rc == (if i < 0 || status < 0 then -1 else 0)
      && d.errno == (if i < 0 then EBADFD else if status < 0 then -status else 0)
      && d.t.maxFd == t.maxFd && |d.t.fds| == n
      && (forall k :: 0 <= k < n && (k != i || i <= 2) ==> d.t.fds[k] == t.fds[k])
      && (i > 2 ==> d.t.fds[i] == FREE && On(d.t, t.fds[i].dev) == On(t, t.fds[i].dev) - {i})
  {
    hide Run;
  }

  /** A closed descriptor above 2 is there to be opened again: an open right after it never finds the table full. */
  lemma CloseMakesRoom(n: nat, ops: seq<Op>, devices: set<Dev>, i: int, status: int, target: Target, flags: nat, answer: int)
    requires 3 <= n && 2 < i && FdOk(Run(n, ops, devices), i) && TargetOk(target, devices) && !target.Nothing?
    ensures var t := Close(Run(n, ops, devices), i, status).t; var d := Open(t, target, flags, answer);
      && FirstFree(t.fds) <= i
      && (target.Device? && Held(t, target.dev) ==> d.rc == -1 && d.errno == EACCES)
      && (!(target.Device? && Held(t, target.dev)) ==>
           if answer < 0 then d.rc == -1 && d.errno == -answer else d.rc == FirstFree(t.fds) && d.errno == 0)
  {
    hide Run;
    var p := Run(n, ops, devices);
    CloseCases(n, ops, devices, i, status);
    ReleaseKeepsInv(p, i, devices);
    var t := Close(p, i, status).t;
    OpenCases(t, target, flags, answer, devices);
    hide Open, Inv, Close;
  }

  /** ioctl() apart from the lock: TIOCNXCL clears the exclusive flag of the one descriptor; everything else, and every request to
      a filesystem, changes nothing and answers what the driver answers, or ENOTTY if it has no ioctl. */
  lemma IoctlCases(t: Table, i: int, req: int, driver: Driver)
    requires FdOk(t, i) && t.maxFd <= |t.fds|
    ensures var d := Ioctl(t, i, req, driver);
      && (d.errno == if d.rc < 0 then -d.rc else 0)
      && (i < 0 ==> d.t == t && d.rc == -EBADFD)
      && (i >= 0 && (!t.fds[i].isDev || req !in {TIOCEXCL, TIOCNXCL}) ==>
           d.t == t && d.rc == match driver case NoIoctl => -ENOTTY case Answers(rc) => rc)
      && (i >= 0 && t.fds[i].isDev && req == TIOCNXCL ==>
           && d.rc == 0 && d.t.maxFd == t.maxFd && |d.t.fds| == |t.fds| && !d.t.fds[i].excl
           && d.t.fds[i].dev == t.fds[i].dev && d.t.fds[i].isDev && d.t.fds[i].mode == t.fds[i].mode
           && forall k :: 0 <= k < |t.fds| && k != i ==> d.t.fds[k] == t.fds[k])
  {
  }

  /** open() keeps the flags it is given, but for the two bits that mark a locked descriptor and a device's. */
  lemma ModeKeepsFlags(flags: nat, excl: bool, dev: bool)
    requires flags < 0x4000_0000
    ensures Mode(flags + (if excl then 0x8000_0000 else 0) + (if dev then 0x4000_0000 else 0)) == flags
  {
  }

  // Whether a stream's name can be opened in t, and the descriptor that gives.
  ghost predicate Opens(t: Table, s: Stream) {
    && !s.target.Nothing? && FirstFree(t.fds) < |t.fds| && s.status >= 0
    && !(s.target.Device? && Held(t, s.target.dev))
  }

  function StreamFd(s: Stream, flags: nat): Fd
    requires !s.target.Nothing?
  {
    Fd(s.target.dev, false, s.target.Device?, flags)
  }

  /** One stream: the slot refers to the name if that can be opened, and keeps what it had if not; no other descriptor changes. */
  lemma OpenFdCases(t: Table, k: nat, s: Stream, flags: nat, devices: set<Dev>)
    requires Inv(t, devices) && k < 3 && TargetOk(s.target, devices) && flags < 0x4000_0000
    ensures var r := OpenFd(t, k, s.target, flags, s.status);
      && |r.fds| == |t.fds|
      && (forall j :: 0 <= j < |t.fds| && j != k ==> r.fds[j] == t.fds[j])
      && r.fds[k] == if Opens(t, s) then StreamFd(s, flags) else t.fds[k]
  {
    OpenCases(t, s.target, flags, s.status, devices);
    ModeKeepsFlags(flags, false, false);
    hide Open, FirstFree, Held, Mode;
  }

  /** alt_io_redirect(): standard output is opened for writing first, then standard input for reading, then standard error for
      writing; each slot refers to its name if that can be opened at that point, and keeps what it had if not. */
  lemma RedirectCases(n: nat, ops: seq<Op>, devices: set<Dev>, o: Stream, i: Stream, e: Stream)
    requires 3 <= n
    requires TargetOk(o.target, devices) && TargetOk(i.target, devices) && TargetOk(e.target, devices)
    ensures var t := Run(n, ops, devices); var r := Redirect(t, o, i, e);
            var t1 := OpenFd(t, 1, o.target, 1, o.status);
            var t2 := OpenFd(t1, 0, i.target, 0, i.status);
      && |r.fds| == n && (forall j :: 3 <= j < n ==> r.fds[j] == t.fds[j])
      && r.fds[1] == (if Opens(t, o) then StreamFd(o, 1) else t.fds[1])
      && r.fds[0] == (if Opens(t1, i) then StreamFd(i, 0) else t.fds[0])
      && r.fds[2] == (if Opens(t2, e) then StreamFd(e, 1) else t.fds[2])
  {
    hide Run, OpenFd, Open, Opens, Inv;
    var t := Run(n, ops, devices);
    Shape(t, devices);
    OpenFdKeepsInv(t, 1, o.target, 1, o.status, devices);
    OpenFdCases(t, 1, o, 1, devices);
    var t1 := OpenFd(t, 1, o.target, 1, o.status);
    OpenFdKeepsInv(t1, 0, i.target, 0, i.status, devices);
    OpenFdCases(t1, 0, i, 0, devices);
    var t2 := OpenFd(t1, 0, i.target, 0, i.status);
    OpenFdCases(t2, 2, e, 1, devices);
  }
}
