/** The file-descriptor pool as the code keeps it: an array searched and updated in place, and a
    high-water mark.  Each call is proved to do what its counterpart in `FdSpec` says. */
module FdPool {
  import opened FdSpec

  class DescriptorPool {
    const fds: array<Fd>
    var maxFd: int

    ghost predicate Valid()
      reads this, fds
    {
      fds.Length == MAX_FD && Inv(Contents())
    }

    ghost function Contents(): Pool
      reads this, fds
    {
      Pool(fds[..], maxFd)
    }

    constructor ()
      ensures Valid() && Contents() == INITIAL && fresh(fds)
    {
      var table := new Fd[MAX_FD](i => Fd(if i < 3 then Some(NULL_DEVICE) else None, 0, NO_FLAGS));
      fds, maxFd := table, -1;
      new;
      assert fds[..] == INITIAL.slots;
      InitialInv();
    }

    /** `alt_get_fd`: claims the first free descriptor; returns -1 if there is none. */
    method GetFd(dev: Dev) returns (index: int)
      requires fds.Length == MAX_FD
      modifies this`maxFd, fds
      ensures var i := FirstFree(old(fds[..]), 0);
              if i == MAX_FD then index == -1 && Contents() == old(Contents())
              else index == i && Contents() == Claim(old(Contents()), dev)
    {
      for i := 0 to MAX_FD
        invariant Contents() == old(Contents())
        invariant FirstFree(fds[..], 0) == FirstFree(fds[..], i)
      {
        if fds[i].dev == None {
          fds[i] := fds[i].(dev := Some(dev));
          if i > maxFd {
            maxFd := i;
          }
          return i;
        }
      }
      return -1;
    }

    /** `alt_release_fd`. */
    method ReleaseFd(file: int)
      requires file < fds.Length
      modifies fds
      ensures Contents() == Release(old(Contents()), file)
    {
      if file > 2 {
        fds[file] := fds[file].(flags := NO_FLAGS);
        fds[file] := fds[file].(dev := None);
      }
    }

    /** `alt_file_locked`: marks the descriptor as a device's and scans for a lock through the
        high-water mark, which is never negative here (compared as unsigned, -1 would send the scan
        past the array). */
    method FileLocked(file: nat) returns (locked: bool)
      requires file < fds.Length && 0 <= maxFd < fds.Length
      modifies fds
      ensures fds[..] == old(fds[..])[file := old(fds[file]).(flags := old(fds[file]).flags.(dev := true))]
      ensures locked <==> Locked(Contents(), file)
    {
      fds[file] := fds[file].(flags := fds[file].flags.(dev := true));
      for i := 0 to maxFd + 1
        invariant forall k :: 0 <= k < i && k != file ==>
                    !(fds[k].dev == fds[file].dev && fds[k].flags.excl)
      {
        if fds[i].dev == fds[file].dev && fds[i].flags.excl && i != file {
          return true;
        }
      }
      return false;
    }

    /** `open`, given what the name resolves to and what the driver will answer. */
    method OpenFile(target: Option<Dev>, mode: nat, driver: Option<Reply>) returns (r: Result)
      requires Valid()
      modifies this`maxFd, fds
      ensures Valid() && (Contents(), r) == Open(old(Contents()), target, mode, driver)
    {
      OpenInv(Contents(), target, mode, driver);
      if target == None {
        return Fail(ENODEV);
      }
      var index := GetFd(target.value);
      if index < 0 {
        return Fail(EMFILE);
      }
      ghost var claimed := Contents();
      fds[index] := fds[index].(flags := Flags(false, false, mode));
      var refused := false;
      if target.value.Device? {
        refused := FileLocked(index);
      }
      ghost var marked := claimed.(slots := claimed.slots[index :=
        claimed.slots[index].(flags := Flags(false, target.value.Device?, mode))]);
      assert Contents() == marked;
      r := Ok(index);
      if refused {
        r := Fail(EACCES);
      } else if driver.Some? {
        fds[index] := fds[index].(priv := driver.value.priv);
        assert Contents() == marked.(slots := marked.slots[index := marked.slots[index].(priv := driver.value.priv)]);
        if driver.value.status < 0 {
          r := Fail(DriverError(-driver.value.status));
        }
      }
      if r.Fail? {
        ReleaseFd(index);
      }
    }

    /** `close`. */
    method CloseFile(file: int, driver: Option<Reply>) returns (r: Result)
      requires Valid() && Usable(Contents(), file)
      modifies fds
      ensures Valid() && (Contents(), r) == Close(old(Contents()), file, driver)
    {
      CloseInv(Contents(), file, driver);
      if file < 0 {
        return Fail(EBADFD);
      }
      var status := 0;
      if driver.Some? {
        fds[file] := fds[file].(priv := driver.value.priv);
        status := driver.value.status;
      }
      ReleaseFd(file);
      if status < 0 {
        return Fail(DriverError(-status));
      }
      return Ok(0);
    }

    /** `alt_fd_lock`: the scan stops before the high-water mark. */
    method Lock(file: nat) returns (r: Result)
      requires file < fds.Length && maxFd < fds.Length
      modifies fds
      ensures r == if LockGranted(old(Contents()), file) then Ok(0) else Fail(EACCES)
      ensures Contents() == if r.Ok? then SetExcl(old(Contents()), file, true) else old(Contents())
    {
      var i := 0;
      while i < maxFd
        invariant 0 <= i && (i == 0 || i <= maxFd) && Contents() == old(Contents())
        invariant forall k :: 0 <= k < i && k != file ==> fds[k].dev != fds[file].dev
      {
        if i != file && fds[i].dev == fds[file].dev {
          return Fail(EACCES);
        }
        i := i + 1;
      }
      fds[file] := fds[file].(flags := fds[file].flags.(excl := true));
      return Ok(0);
    }

    /** `alt_fd_unlock`. */
    method Unlock(file: nat) returns (r: Result)
      requires file < fds.Length
      modifies fds
      ensures r == Ok(0) && Contents() == SetExcl(old(Contents()), file, false)
    {
      fds[file] := fds[file].(flags := fds[file].flags.(excl := false));
      return Ok(0);
    }

    /** `ioctl`: the two lock requests are handled here for devices; everything else is the driver's. */
    method IoControl(file: int, request: Request, driver: Option<Reply>) returns (r: Result)
      requires Valid() && Usable(Contents(), file)
      modifies fds
      ensures Valid() && (Contents(), r) == Ioctl(old(Contents()), file, request, driver)
    {
      IoctlInv(Contents(), file, request, driver);
      if file < 0 {
        return Fail(EBADFD);
      }
      if fds[file].flags.dev {
        if request == TIOCEXCL {
          r := Lock(file);
          return;
        } else if request == TIOCNXCL {
          r := Unlock(file);
          return;
        }
      }
      if driver == None {
        return Fail(ENOTTY);
      }
      fds[file] := fds[file].(priv := driver.value.priv);
      return if driver.value.status < 0 then Fail(DriverError(-driver.value.status))
             else Ok(driver.value.status);
    }

    /** `alt_open_fd`. */
    method OpenStream(slot: nat, stream: Stream, mode: nat)
      requires Valid() && slot < 3
      modifies this`maxFd, fds
      ensures Valid() && Contents() == OpenFd(old(Contents()), slot, stream.target, mode, stream.driver)
    {
      OpenFdConserves(Contents(), slot, stream.target, mode, stream.driver);
      var r := OpenFile(stream.target, mode, stream.driver);
      ghost var q := Contents();
      if r.Ok? {
        fds[slot] := fds[slot].(dev := fds[r.value].dev);
        fds[slot] := fds[slot].(priv := fds[r.value].priv);
        fds[slot] := fds[slot].(flags := fds[r.value].flags);
        assert fds[..] == q.slots[slot := q.slots[r.value]];
        ReleaseFd(r.value);
      }
    }

    /** `alt_io_redirect`. */
    method RedirectStreams(out: Stream, inp: Stream, err: Stream)
      requires Valid()
      modifies this`maxFd, fds
      ensures Valid() && Contents() == Redirect(old(Contents()), out, inp, err)
    {
      OpenStream(1, out, O_WRONLY);
      OpenStream(0, inp, O_RDONLY);
      OpenStream(2, err, O_WRONLY);
    }
  }
}
