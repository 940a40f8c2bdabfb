/** The descriptor table as it is: a fixed array of descriptors and a high-water mark, scanned and updated in place. */
module FdTable {
  import opened Errno
  import opened FdSpec

  class Files {
    const fds: array<Fd>
    var maxFd: int
    var errno: int
    ghost const devices: set<Dev>

    ghost function View(): Table
      reads this`maxFd, fds
    {
      Table(fds[..], maxFd)
    }

    ghost predicate Valid()
      reads this`maxFd, fds
    {
      Inv(View(), devices)
    }

    // A call has done what the function says: new table, result, and errno where it sets it.
    twostate predicate Did(d: Done, rc: int)
      reads this`maxFd, this`errno, fds
    {
      View() == d.t && rc == d.rc && errno == if d.errno == 0 then old(errno) else d.errno
    }

    constructor (n: nat, ghost devices: set<Dev>)
      requires 3 <= n
      ensures Valid() && View() == Start(n) && fresh(fds) && this.devices == devices
    {
      fds := new Fd[n](i => if i < 3 then Fd(DEV_NULL, false, false, 0) else FREE);
      maxFd, errno := -1, 0;
      this.devices := devices;
      new;
      assert fds[..] == Start(n).fds;
      StartInv(n, devices);
    }

    // The first free descriptor, by the scan of alt_get_fd.
    method GetFd(dev: Dev) returns (rc: int)
      requires -1 <= maxFd < fds.Length
      modifies this`maxFd, fds
      ensures (View(), rc) == FdSpec.GetFd(old(View()), dev)
    {
      rc := -EMFILE;
      var i := 0;
      while i < fds.Length
        invariant 0 <= i <= fds.Length && View() == old(View()) && rc == -EMFILE
        invariant forall k :: 0 <= k < i ==> fds[k].dev != NULL
      {
        if fds[i].dev == NULL {
          assert FirstFree(fds[..]) == i;
          fds[i] := fds[i].(dev := dev);
          if i > maxFd {
            maxFd := i;
          }
          rc := i;
          return;
        }
        i := i + 1;
      }
    }

    method ReleaseFd(i: int)
      requires i < fds.Length
      modifies fds
      ensures View() == FdSpec.ReleaseFd(old(View()), i)
    {
      if i > 2 {
        fds[i] := fds[i].(excl := false, isDev := false, mode := 0);
        fds[i] := fds[i].(dev := NULL);
      }
    }

    // alt_file_locked: marks the descriptor as a device's, then scans up to and including the mark.
    method FileLocked(i: nat) returns (rc: int)
      requires i < fds.Length && 0 <= maxFd < fds.Length
      modifies fds
      ensures fds[..] == old(fds[..])[i := old(fds[i]).(isDev := true)]
      ensures rc == if FdSpec.FileLocked(View(), i) then -EACCES else 0
    {
      fds[i] := fds[i].(isDev := true);
      var k := 0;
      while k <= maxFd
        invariant 0 <= k <= maxFd + 1
        invariant forall j :: 0 <= j < k ==> !(fds[j].dev == fds[i].dev && fds[j].excl && j != i)
      {
        if fds[k].dev == fds[i].dev && fds[k].excl && k != i {
          return -EACCES;
        }
        k := k + 1;
      }
      rc := 0;
    }

    // The middle of open(): sets the flags of the descriptor just taken and asks the driver, unless the device is held.
    method Configure(index: nat, ghost dev: Dev, isafs: bool, flags: nat, status: int) returns (st: int)
      requires index < fds.Length && 0 <= maxFd < fds.Length && fds[index].dev == dev
      modifies fds
      ensures fds[..] == old(fds[..])[index := Fd(dev, false, !isafs, Mode(flags))]
      ensures st == if !isafs && FdSpec.FileLocked(View(), index) then -EACCES else status
    {
      fds[index] := fds[index].(excl := false, isDev := false, mode := Mode(flags));
      st := 0;
      if !isafs {
        st := FileLocked(index);
      }
      if isafs || st >= 0 {
        st := status;
      }
    }

    /** open() */
    method Open(target: Target, flags: nat, status: int) returns (rc: int)
      requires Valid() && TargetOk(target, devices)
      modifies this, fds
      ensures Valid() && Did(FdSpec.Open(old(View()), target, flags, status), rc)
    {
      OpenKeepsInv(View(), target, flags, status, devices);
      assert -1 <= maxFd < fds.Length;
      hide Inv, FdSpec.FileLocked;
      var index := -1;
      var st := -ENODEV;
      if !target.Nothing? {
        index := GetFd(target.dev);
        if index < 0 {
          st := index;
        } else {
          st := Configure(index, target.dev, target.FileSystem?, flags, status);
        }
      }
      if st < 0 {
        ReleaseFd(index);
        errno := -st;
        return -1;
      }
      rc := index;
    }

    /** close(). A descriptor that is free or out of range is wild: the code follows its device pointer all the same, and what
        comes of that is not modelled. */
    method Close(fildes: int, status: int) returns (rc: int, wild: bool)
      requires Valid()
      modifies this, fds
      ensures wild <==> !FdOk(old(View()), fildes)
      ensures Valid() && (!wild ==> Did(FdSpec.Close(old(View()), fildes, status), rc))
      ensures !wild ==> rc == if fildes < 0 || status < 0 then -1 else 0
      ensures !wild && fildes > 2 ==> fds[..] == old(fds[..])[fildes := FREE]
      ensures wild || fildes <= 2 ==> fds[..] == old(fds[..])
    {
      rc, wild := -1, fildes >= 0 && (fildes >= fds.Length || fds[fildes].dev == NULL);
      if wild { return; }
      ReleaseKeepsInv(View(), fildes, devices);
      if fildes >= 0 {
        ReleaseFd(fildes);
        if status < 0 {
          errno := -status;
          return;
        }
        rc := 0;
      } else {
        errno := EBADFD;
      }
    }

    // alt_fd_lock
    method Lock(i: nat) returns (rc: int)
      requires i < fds.Length && maxFd < fds.Length
      modifies fds
      ensures (View(), rc) == FdSpec.Lock(old(View()), i)
    {
      rc := 0;
      var k := 0;
      while k < maxFd
        invariant 0 <= k && rc == 0 && View() == old(View())
        invariant forall j :: 0 <= j < k && j < maxFd ==> !(j != i && fds[j].dev == fds[i].dev)
      {
        if k != i && fds[k].dev == fds[i].dev {
          return -EACCES;
        }
        k := k + 1;
      }
      fds[i] := fds[i].(excl := true);
    }

    // alt_fd_unlock
    method Unlock(i: nat) returns (rc: int)
      requires i < fds.Length
      modifies fds
      ensures (View(), rc) == FdSpec.Unlock(old(View()), i)
    {
      fds[i] := fds[i].(excl := false);
      rc := 0;
    }

    /** ioctl(), with wild descriptors as for close(). */
    method Ioctl(file: int, req: int, driver: Driver) returns (rc: int, wild: bool)
      requires Valid()
      modifies this, fds
      ensures wild <==> !FdOk(old(View()), file)
      ensures Valid() && (!wild ==> Did(FdSpec.Ioctl(old(View()), file, req, driver), rc))
    {
      rc, wild := -1, file >= 0 && (file >= fds.Length || fds[file].dev == NULL);
      if wild { return; }
      ApplyKeepsInv(View(), DoIoctl(file, req, driver), devices);
      if file >= 0 {
        if fds[file].isDev && req == TIOCEXCL {
          rc := Lock(file);
        } else if fds[file].isDev && req == TIOCNXCL {
          rc := Unlock(file);
        } else if driver.Answers? {
          rc := driver.rc;
        } else {
          rc := -ENOTTY;
        }
      } else {
        rc := -EBADFD;
      }
      if rc < 0 {
        errno := -rc;
      }
    }

    // alt_open_fd
    method OpenFd(k: nat, target: Target, flags: nat, status: int)
      requires Valid() && k < 3 && TargetOk(target, devices)
      modifies this, fds
      ensures Valid() && View() == FdSpec.OpenFd(old(View()), k, target, flags, status)
    {
      OpenFdKeepsInv(View(), k, target, flags, status, devices);
      OpenCases(View(), target, flags, status, devices);
      var got := Open(target, flags, status);
      if got >= 0 {
        fds[k] := fds[got];
        ReleaseFd(got);
      }
    }

    /** alt_io_redirect() */
    method Redirect(stdout: Stream, stdin: Stream, stderr: Stream)
      requires Valid() && TargetOk(stdout.target, devices) && TargetOk(stdin.target, devices)
      requires TargetOk(stderr.target, devices)
      modifies this, fds
      ensures Valid() && View() == FdSpec.Redirect(old(View()), stdout, stdin, stderr)
    {
      OpenFd(1, stdout.target, O_WRONLY, stdout.status);
      OpenFd(0, stdin.target, O_RDONLY, stdin.status);
      OpenFd(2, stderr.target, O_WRONLY, stderr.status);
    }
  }
}
