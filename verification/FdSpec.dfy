/** The file-descriptor pool as values: what each call does to it, and what holds over whole runs. */
module FdSpec {

  const MAX_FD: nat := 32

  datatype Option<+T> = None | Some(value: T)

  /** A registered device or filesystem. */
  datatype Dev = Device(id: nat) | FileSystem(id: nat)

  /** The flags word: the two bits the pool itself uses, and the caller's open flags. */
  datatype Flags = Flags(excl: bool, dev: bool, mode: nat)

  const NO_FLAGS := Flags(false, false, 0)

  datatype Fd = Fd(dev: Option<Dev>, priv: int, flags: Flags)

  datatype Pool = Pool(slots: seq<Fd>, maxFd: int)

  datatype Error = ENODEV | EMFILE | EACCES | ENOTTY | EBADFD | DriverError(code: int)

  datatype Result = Ok(value: int) | Fail(error: Error)

  /** What a driver callback answers: a status, negative on failure, and its descriptor's new private
      data.  `None` stands for a driver without that callback. */
  datatype Reply = Reply(status: int, priv: int)

  datatype Request = TIOCEXCL | TIOCNXCL | OtherRequest

  const NULL_DEVICE := Device(0)

  /** The pool at startup. */
  const INITIAL := Pool(seq(MAX_FD, i => Fd(if i < 3 then Some(NULL_DEVICE) else None, 0, NO_FLAGS)), -1)

  // ---- The calls ----

  /** The first free slot at or after `from`, or the pool's size. */
  function FirstFree(slots: seq<Fd>, from: nat): (i: nat)
    requires from <= |slots|
    ensures from <= i <= |slots|
    ensures i < |slots| ==> slots[i].dev == None
    ensures forall k :: from <= k < i ==> slots[k].dev != None
    decreases |slots| - from
  {
    if from == |slots| || slots[from].dev == None then from else FirstFree(slots, from + 1)
  }

  /** Claims the first free slot and raises the high-water mark. */
  function Claim(p: Pool, dev: Dev): Pool
    requires FirstFree(p.slots, 0) < |p.slots|
  {
    var i := FirstFree(p.slots, 0);
    Pool(p.slots[i := p.slots[i].(dev := Some(dev))], if i > p.maxFd then i else p.maxFd)
  }

  /** Frees a slot; the three standard ones are never freed. */
  function Release(p: Pool, file: int): Pool
    requires file < |p.slots|
  {
    if file > 2 then p.(slots := p.slots[file := p.slots[file].(flags := NO_FLAGS, dev := None)]) else p
  }

  /** Does another descriptor on the same device, among those the scan looks at, hold the lock? */
  predicate Locked(p: Pool, file: nat)
    requires file < |p.slots| && p.maxFd < |p.slots|
  {
    exists i :: 0 <= i <= p.maxFd && i != file && p.slots[i].dev == p.slots[file].dev && p.slots[i].flags.excl
  }

  function Open(p: Pool, target: Option<Dev>, mode: nat, driver: Option<Reply>): (r: (Pool, Result))
    requires p.maxFd < |p.slots|
    ensures |r.0.slots| == |p.slots| && r.0.maxFd < |p.slots|
    ensures r.1.Ok? ==> r.1.value == FirstFree(p.slots, 0) < |p.slots|
  {
    if target == None then (p, Fail(ENODEV))
    else
      var i := FirstFree(p.slots, 0);
      if i == |p.slots| then (p, Fail(EMFILE))
      else
        var claimed := Claim(p, target.value);
        var marked := claimed.(slots := claimed.slots[i :=
          claimed.slots[i].(flags := Flags(false, target.value.Device?, mode))]);
        if target.value.Device? && Locked(marked, i) then (Release(marked, i), Fail(EACCES))
        else if driver == None then (marked, Ok(i))
        else
          var ready := marked.(slots := marked.slots[i := marked.slots[i].(priv := driver.value.priv)]);
          if driver.value.status < 0 then (Release(ready, i), Fail(DriverError(-driver.value.status)))
          else (ready, Ok(i))
  }

  /** Closing and ioctl are meant for negative numbers, which they refuse, and open descriptors. */
  predicate Usable(p: Pool, file: int) {
    file < 0 || (file < |p.slots| && p.slots[file].dev != None)
  }

  function Close(p: Pool, file: int, driver: Option<Reply>): (Pool, Result)
    requires Usable(p, file)
  {
    if file < 0 then (p, Fail(EBADFD))
    else if driver == None then (Release(p, file), Ok(0))
    else
      var closed := p.(slots := p.slots[file := p.slots[file].(priv := driver.value.priv)]);
      (Release(closed, file), if driver.value.status < 0 then Fail(DriverError(-driver.value.status)) else Ok(0))
  }

  /** Does the scan of the lock call find no other descriptor on the device?  It stops short of the
      high-water mark. */
  predicate LockGranted(p: Pool, file: nat)
    requires file < |p.slots| && p.maxFd < |p.slots|
  {
    forall i :: 0 <= i < p.maxFd && i != file ==> p.slots[i].dev != p.slots[file].dev
  }

  function SetExcl(p: Pool, file: nat, excl: bool): Pool
    requires file < |p.slots|
  {
    p.(slots := p.slots[file := p.slots[file].(flags := p.slots[file].flags.(excl := excl))])
  }

  function Ioctl(p: Pool, file: int, request: Request, driver: Option<Reply>): (Pool, Result)
    requires Usable(p, file) && p.maxFd < |p.slots|
  {
    if file < 0 then (p, Fail(EBADFD))
    else if p.slots[file].flags.dev && request == TIOCEXCL then
      if LockGranted(p, file) then (SetExcl(p, file, true), Ok(0)) else (p, Fail(EACCES))
    else if p.slots[file].flags.dev && request == TIOCNXCL then (SetExcl(p, file, false), Ok(0))
    else if driver == None then (p, Fail(ENOTTY))
    else
      (p.(slots := p.slots[file := p.slots[file].(priv := driver.value.priv)]),
       if driver.value.status < 0 then Fail(DriverError(-driver.value.status)) else Ok(driver.value.status))
  }

  /** Opens a device and moves the result to the given slot; a failed open changes nothing there. */
  function OpenFd(p: Pool, slot: nat, target: Option<Dev>, mode: nat, driver: Option<Reply>): (r: Pool)
    requires slot < |p.slots| && p.maxFd < |p.slots|
    ensures |r.slots| == |p.slots| && r.maxFd < |p.slots|
  {
    var (q, r) := Open(p, target, mode, driver);
    if r.Ok? then Release(q.(slots := q.slots[slot := q.slots[r.value]]), r.value) else q
  }

  /** A stream to redirect: what the name resolves to and what the driver will answer. */
  datatype Stream = Stream(target: Option<Dev>, driver: Option<Reply>)

  const O_RDONLY: nat := 0
  const O_WRONLY: nat := 1

  function Redirect(p: Pool, out: Stream, inp: Stream, err: Stream): Pool
    requires |p.slots| == MAX_FD && p.maxFd < MAX_FD
  {
    var p1 := OpenFd(p, 1, out.target, O_WRONLY, out.driver);
    var p2 := OpenFd(p1, 0, inp.target, O_RDONLY, inp.driver);
    OpenFd(p2, 2, err.target, O_WRONLY, err.driver)
  }

  // ---- Runs ----

  datatype Op =
    | OpOpen(target: Option<Dev>, mode: nat, driver: Option<Reply>)
    | OpClose(file: int, driver: Option<Reply>)
    | OpIoctl(file: int, request: Request, driver: Option<Reply>)
    | OpRedirect(out: Stream, inp: Stream, err: Stream)

  /** The lock bookkeeping is sound: the pool's standard slots are in use, slots in use from 3 on are
      at or below the high-water mark, free ones have no flags set, and only devices are marked as
      such or locked.  A lock held by the descriptor at the high-water mark, the one the lock scan
      never looks at, is the device's only descriptor; and no device is locked twice. */
  ghost predicate Inv(p: Pool) {
    && |p.slots| == MAX_FD && -1 <= p.maxFd < MAX_FD
    && (forall i :: 0 <= i < 3 ==> p.slots[i].dev != None)
    && (forall i :: 3 <= i < MAX_FD && p.slots[i].dev != None ==> i <= p.maxFd)
    && (forall i :: 3 <= i < MAX_FD && p.slots[i].dev == None ==> p.slots[i].flags == NO_FLAGS)
    && (forall i :: 0 <= i < MAX_FD && p.slots[i].flags.dev ==>
          p.slots[i].dev.Some? && p.slots[i].dev.value.Device? && 3 <= p.maxFd)
    && (forall i :: 0 <= i < MAX_FD && p.slots[i].flags.excl ==> p.slots[i].flags.dev)
    && (0 <= p.maxFd && p.slots[p.maxFd].flags.excl ==> SoleOwner(p, p.maxFd))
    && (forall i, j :: 0 <= i < j < MAX_FD && p.slots[i].flags.excl && p.slots[j].flags.excl ==>
          p.slots[i].dev != p.slots[j].dev)
  }

  /** No other descriptor refers to the same device. */
  ghost predicate SoleOwner(p: Pool, file: nat)
    requires file < |p.slots|
  {
    forall i :: 0 <= i < |p.slots| && i != file ==> p.slots[i].dev != p.slots[file].dev
  }

  lemma InitialInv()
    ensures Inv(INITIAL)
  {
  }

  /** No descriptor at all holds the device's lock. */
  ghost predicate Unlocked(p: Pool, dev: Dev) {
    forall k :: 0 <= k < |p.slots| && p.slots[k].flags.excl ==> p.slots[k].dev != Some(dev)
  }

  /** The lowest free descriptor, not a standard one, has been set up for the device, not locked, and
      no other descriptor was touched. */
  ghost predicate Opened(p: Pool, q: Pool, i: int, dev: Dev, mode: nat) {
    && |p.slots| == |q.slots| == MAX_FD && p.maxFd <= q.maxFd < MAX_FD && 3 <= i <= q.maxFd
    && (q.maxFd == p.maxFd || q.maxFd == i)
    && p.slots[i].dev == None && (forall k :: 0 <= k < i ==> p.slots[k].dev != None)
    && q.slots[i].dev == Some(dev) && q.slots[i].flags == Flags(false, dev.Device?, mode)
    && (forall k :: 0 <= k < MAX_FD && k != i ==> q.slots[k] == p.slots[k])
  }

  /** Every descriptor refers to what it did and has the flags it had.  The high-water mark may have
      risen, but not to a descriptor in use. */
  ghost predicate Untouched(p: Pool, q: Pool) {
    && |p.slots| == |q.slots| == MAX_FD && p.maxFd <= q.maxFd < MAX_FD
    && (q.maxFd == p.maxFd || (q.maxFd > 2 && q.slots[q.maxFd].dev == None))
    && forall k :: 0 <= k < MAX_FD ==> q.slots[k].dev == p.slots[k].dev && q.slots[k].flags == p.slots[k].flags
  }

  /** An open that succeeds returns the lowest free descriptor, never a standard one, set up for the
      device and not locked, and touches no other; one that fails leaves every descriptor as it was. */
  lemma OpenDiscipline(p: Pool, target: Option<Dev>, mode: nat, driver: Option<Reply>)
    requires Inv(p)
    ensures var (q, r) := Open(p, target, mode, driver);
            if r.Ok? then target.Some? && Opened(p, q, r.value, target.value, mode) else Untouched(p, q)
  {
  }

  /** It succeeds exactly if the name resolves, a descriptor is free, no descriptor at all holds the
      lock of the device, and the driver does not object. */
  lemma OpenSucceedsIff(p: Pool, target: Option<Dev>, mode: nat, driver: Option<Reply>)
    requires Inv(p)
    ensures Open(p, target, mode, driver).1.Ok? <==>
            && target.Some? && (exists k :: 0 <= k < MAX_FD && p.slots[k].dev == None)
            && Unlocked(p, target.value) && (driver == None || driver.value.status >= 0)
  {
    var i := FirstFree(p.slots, 0);
    if target.Some? && i < MAX_FD {
      var claimed := Claim(p, target.value);
      var marked := claimed.(slots := claimed.slots[i :=
        claimed.slots[i].(flags := Flags(false, target.value.Device?, mode))]);
      assert forall k :: 0 <= k < MAX_FD && k != i ==> marked.slots[k] == p.slots[k];
      assert target.value.Device? ==> (Locked(marked, i) <==> !Unlocked(p, target.value));
    }
  }

  lemma OpenedInv(p: Pool, q: Pool, i: int, dev: Dev, mode: nat)
    requires Inv(p) && Opened(p, q, i, dev, mode) && Unlocked(p, dev)
    ensures Inv(q)
  {
  }

  lemma UntouchedInv(p: Pool, q: Pool)
    requires Inv(p) && Untouched(p, q)
    ensures Inv(q)
  {
  }

  lemma OpenInv(p: Pool, target: Option<Dev>, mode: nat, driver: Option<Reply>)
    requires Inv(p)
    ensures Inv(Open(p, target, mode, driver).0)
  {
    OpenDiscipline(p, target, mode, driver);
    OpenSucceedsIff(p, target, mode, driver);
    var (q, r) := Open(p, target, mode, driver);
    if r.Ok? {
      OpenedInv(p, q, r.value, target.value, mode);
    } else {
      UntouchedInv(p, q);
    }
  }

  /** What an open answers: the reason of a failure, and what becomes of the driver's private data. */
  lemma OpenAnswers(p: Pool, target: Option<Dev>, mode: nat, driver: Option<Reply>)
    requires Inv(p)
    ensures var (q, r) := Open(p, target, mode, driver);
            var free := exists k :: 0 <= k < MAX_FD && p.slots[k].dev == None;
            && (r == Fail(ENODEV) <==> target == None)
            && (r == Fail(EMFILE) <==> target.Some? && !free)
            && (r == Fail(EACCES) <==> target.Some? && free && !Unlocked(p, target.value))
            && (target.Some? && free && Unlocked(p, target.value) && driver.Some? && driver.value.status < 0 ==>
                  r == Fail(DriverError(-driver.value.status)))
            && (r.Ok? && driver.Some? ==> q.slots[r.value].priv == driver.value.priv)
            && (r.Ok? && driver == None ==> q.slots[r.value].priv == p.slots[r.value].priv)
  {
    var i := FirstFree(p.slots, 0);
    if target.Some? && i < MAX_FD {
      var claimed := Claim(p, target.value);
      var marked := claimed.(slots := claimed.slots[i :=
        claimed.slots[i].(flags := Flags(false, target.value.Device?, mode))]);
      assert p.slots[i].dev == None;
      assert forall k :: 0 <= k < MAX_FD && k != i ==> marked.slots[k] == p.slots[k];
      assert target.value.Device? ==> (Locked(marked, i) <==> !Unlocked(p, target.value));
    }
  }

  /** A close frees its descriptor and clears its flags, unless it is a standard one, whatever the driver
      answers; it touches nothing else.  It fails for a negative number and if the driver does. */
  lemma CloseDiscipline(p: Pool, file: int, driver: Option<Reply>)
    requires Inv(p) && Usable(p, file)
    ensures var (q, r) := Close(p, file, driver);
            && |q.slots| == MAX_FD && q.maxFd == p.maxFd
            && (forall k :: 0 <= k < MAX_FD && k != file ==> q.slots[k] == p.slots[k])
            && (file > 2 ==> q.slots[file].dev == None && q.slots[file].flags == NO_FLAGS)
            && (0 <= file <= 2 ==> q.slots[file].dev == p.slots[file].dev && q.slots[file].flags == p.slots[file].flags)
            && (file >= 0 ==> q.slots[file].priv == if driver.Some? then driver.value.priv else p.slots[file].priv)
            && (r == Ok(0) <==> file >= 0 && (driver == None || driver.value.status >= 0))
            && (file < 0 ==> r == Fail(EBADFD))
            && (file >= 0 && driver.Some? && driver.value.status < 0 ==> r == Fail(DriverError(-driver.value.status)))
  {
  }

  /** Closing undoes opening: every descriptor is as it was. */
  lemma OpenThenClose(p: Pool, target: Option<Dev>, mode: nat, driver: Option<Reply>, closer: Option<Reply>)
    requires Inv(p)
    ensures var (q, r) := Open(p, target, mode, driver);
            r.Ok? ==> Usable(q, r.value) && Untouched(p, Close(q, r.value, closer).0)
  {
    OpenDiscipline(p, target, mode, driver);
    OpenInv(p, target, mode, driver);
    var (q, r) := Open(p, target, mode, driver);
    if r.Ok? {
      CloseDiscipline(q, r.value, closer);
    }
  }

  /** The descriptor closed is the next one opened, if no lower one is free; and the lock it held is gone. */
  lemma CloseThenOpen(p: Pool, file: int, closer: Option<Reply>, target: Option<Dev>, mode: nat, driver: Option<Reply>)
    requires Inv(p) && 2 < file < MAX_FD && forall k :: 0 <= k <= file ==> p.slots[k].dev != None
    ensures var q := Close(p, file, closer).0;
            && |q.slots| == MAX_FD && q.maxFd < MAX_FD
            && (Open(q, target, mode, driver).1.Ok? ==> Open(q, target, mode, driver).1 == Ok(file))
            && (p.slots[file].flags.excl ==> Unlocked(q, p.slots[file].dev.value))
  {
    CloseDiscipline(p, file, closer);
    CloseInv(p, file, closer);
    OpenDiscipline(Close(p, file, closer).0, target, mode, driver);
  }

  /** An ioctl touches the flags of its descriptor at most, and of these the lock bit only.  Locking sets it
      exactly if the scan grants the lock, unlocking clears it; other requests are the driver's. */
  lemma IoctlDiscipline(p: Pool, file: int, request: Request, driver: Option<Reply>)
    requires Inv(p) && Usable(p, file)
    ensures var (q, r) := Ioctl(p, file, request, driver);
            && |q.slots| == MAX_FD && q.maxFd == p.maxFd
            && (forall k :: 0 <= k < MAX_FD && k != file ==> q.slots[k] == p.slots[k])
            && (file < 0 ==> r == Fail(EBADFD))
            && (file >= 0 ==>
                  var was, after := p.slots[file], q.slots[file];
                  && after.dev == was.dev && after.flags.dev == was.flags.dev && after.flags.mode == was.flags.mode
                  && (if was.flags.dev && request == TIOCEXCL then
                        && r == (if LockGranted(p, file) then Ok(0) else Fail(EACCES))
                        && after.flags.excl == (was.flags.excl || r.Ok?)
                      else if was.flags.dev && request == TIOCNXCL then r == Ok(0) && !after.flags.excl
                      else
                        && after.flags == was.flags
                        && (driver == None ==> r == Fail(ENOTTY))
                        && (driver.Some? ==> after.priv == driver.value.priv)
                        && (driver.Some? && driver.value.status < 0 ==> r == Fail(DriverError(-driver.value.status)))
                        && (driver.Some? && driver.value.status >= 0 ==> r == Ok(driver.value.status))))
  {
  }

  /** Locking reports success exactly if the lock is then held, unless it was held before and the scan finds
      another user: then it reports failure although the lock is still held. */
  lemma LockReportIff(p: Pool, file: nat, driver: Option<Reply>)
    requires Inv(p) && file < MAX_FD && p.slots[file].dev != None && p.slots[file].flags.dev
    ensures var (q, r) := Ioctl(p, file, TIOCEXCL, driver);
            (r.Ok? <==> q.slots[file].flags.excl) <==> !p.slots[file].flags.excl || LockGranted(p, file)
  {
  }

  lemma CloseInv(p: Pool, file: int, driver: Option<Reply>)
    requires Inv(p) && Usable(p, file)
    ensures Inv(Close(p, file, driver).0)
  {
  }

  /** A granted lock is the first on its device, although the scan never looks at the descriptor at
      the high-water mark: that one cannot hold a lock while another descriptor shares its device. */
  lemma IoctlInv(p: Pool, file: int, request: Request, driver: Option<Reply>)
    requires Inv(p) && Usable(p, file)
    ensures Inv(Ioctl(p, file, request, driver).0)
  {
    if file >= 0 && p.slots[file].flags.dev && request == TIOCEXCL && LockGranted(p, file) {
      forall j | 0 <= j < MAX_FD && j != file && p.slots[j].flags.excl
        ensures p.slots[j].dev != p.slots[file].dev
      {
        assert j <= p.maxFd;
      }
    }
  }

  /** Slot `slot` has been given what a fresh open for the device gives, and descriptors other than it
      are as they were. */
  ghost predicate Moved(p: Pool, q: Pool, slot: nat, dev: Dev, mode: nat) {
    && |p.slots| == |q.slots| == MAX_FD && p.maxFd <= q.maxFd < MAX_FD && slot < 3 <= q.maxFd
    && (q.maxFd == p.maxFd || q.slots[q.maxFd].dev == None)
    && q.slots[slot].dev == Some(dev) && q.slots[slot].flags == Flags(false, dev.Device?, mode)
    && forall k :: 0 <= k < MAX_FD && k != slot ==>
         q.slots[k].dev == p.slots[k].dev && q.slots[k].flags == p.slots[k].flags
  }

  lemma MovedInv(p: Pool, q: Pool, slot: nat, dev: Dev, mode: nat)
    requires Inv(p) && Moved(p, q, slot, dev, mode) && Unlocked(p, dev)
    ensures Inv(q)
  {
  }

  /** Redirecting one standard stream: if the open succeeds the stream moves to the device, otherwise
      nothing changes; the descriptor used in between is free again. */
  lemma OpenFdConserves(p: Pool, slot: nat, target: Option<Dev>, mode: nat, driver: Option<Reply>)
    requires Inv(p) && slot < 3
    ensures var q := OpenFd(p, slot, target, mode, driver);
            && Inv(q)
            && (if Open(p, target, mode, driver).1.Ok? then
                  target.Some? && Unlocked(p, target.value) && Moved(p, q, slot, target.value, mode)
                else Untouched(p, q))
  {
    OpenDiscipline(p, target, mode, driver);
    OpenSucceedsIff(p, target, mode, driver);
    var q := OpenFd(p, slot, target, mode, driver);
    if Open(p, target, mode, driver).1.Ok? {
      assert Moved(p, q, slot, target.value, mode);
      MovedInv(p, q, slot, target.value, mode);
    } else {
      UntouchedInv(p, q);
    }
  }

  /** Is the stream as it was, or on the named device with the flags of a fresh open? */
  ghost predicate Redirected(was: Fd, after: Fd, stream: Stream, mode: nat) {
    (after.dev == was.dev && after.flags == was.flags)
    || (stream.target.Some? && after.dev == stream.target
        && after.flags == Flags(false, stream.target.value.Device?, mode))
  }

  /** Redirecting the standard streams, from any reachable state: the descriptors from 3 on are left as
      they were, and each standard stream is untouched or refers to the device named for it. */
  lemma RedirectConserves(p: Pool, out: Stream, inp: Stream, err: Stream)
    requires Inv(p)
    ensures var q := Redirect(p, out, inp, err);
            && Inv(q)
            && (forall i :: 3 <= i < MAX_FD ==>
                  q.slots[i].dev == p.slots[i].dev && q.slots[i].flags == p.slots[i].flags)
            && Redirected(p.slots[0], q.slots[0], inp, O_RDONLY)
            && Redirected(p.slots[1], q.slots[1], out, O_WRONLY)
            && Redirected(p.slots[2], q.slots[2], err, O_WRONLY)
  {
    OpenFdConserves(p, 1, out.target, O_WRONLY, out.driver);
    var p1 := OpenFd(p, 1, out.target, O_WRONLY, out.driver);
    OpenFdConserves(p1, 0, inp.target, O_RDONLY, inp.driver);
    var p2 := OpenFd(p1, 0, inp.target, O_RDONLY, inp.driver);
    OpenFdConserves(p2, 2, err.target, O_WRONLY, err.driver);
  }

  /** Each stream is moved exactly if its open succeeds when its turn comes: output first, then input, then
      error. */
  lemma RedirectMoves(p: Pool, out: Stream, inp: Stream, err: Stream)
    requires Inv(p)
    ensures var p1 := OpenFd(p, 1, out.target, O_WRONLY, out.driver);
            var p2 := OpenFd(p1, 0, inp.target, O_RDONLY, inp.driver);
            var q := Redirect(p, out, inp, err);
            && q.slots[1].dev == (if Open(p, out.target, O_WRONLY, out.driver).1.Ok? then out.target else p.slots[1].dev)
            && q.slots[0].dev == (if Open(p1, inp.target, O_RDONLY, inp.driver).1.Ok? then inp.target else p.slots[0].dev)
            && q.slots[2].dev == (if Open(p2, err.target, O_WRONLY, err.driver).1.Ok? then err.target else p.slots[2].dev)
  {
    OpenFdConserves(p, 1, out.target, O_WRONLY, out.driver);
    var p1 := OpenFd(p, 1, out.target, O_WRONLY, out.driver);
    OpenFdConserves(p1, 0, inp.target, O_RDONLY, inp.driver);
    var p2 := OpenFd(p1, 0, inp.target, O_RDONLY, inp.driver);
    OpenFdConserves(p2, 2, err.target, O_WRONLY, err.driver);
  }

  /** May a stream be opened when nothing is locked and a descriptor is free? */
  predicate Willing(stream: Stream) {
    stream.target.Some? && (stream.driver == None || stream.driver.value.status >= 0)
  }

  lemma OpenFdWilling(p: Pool, slot: nat, stream: Stream, mode: nat)
    requires Inv(p) && slot < 3 && Willing(stream)
    requires (exists k :: 0 <= k < MAX_FD && p.slots[k].dev == None) && forall k :: 0 <= k < MAX_FD ==> !p.slots[k].flags.excl
    ensures var q := OpenFd(p, slot, stream.target, mode, stream.driver);
            && Moved(p, q, slot, stream.target.value, mode)
            && (exists k :: 0 <= k < MAX_FD && q.slots[k].dev == None) && forall k :: 0 <= k < MAX_FD ==> !q.slots[k].flags.excl
  {
    OpenSucceedsIff(p, stream.target, mode, stream.driver);
    OpenFdConserves(p, slot, stream.target, mode, stream.driver);
    var k :| 0 <= k < MAX_FD && p.slots[k].dev == None;
    assert k >= 3;
    assert OpenFd(p, slot, stream.target, mode, stream.driver).slots[k].dev == None;
  }

  /** In particular, with a free descriptor and no locks, all streams whose drivers are willing end up on their
      devices, each with the flags of its direction. */
  lemma RedirectAll(p: Pool, out: Stream, inp: Stream, err: Stream)
    requires Inv(p) && Willing(out) && Willing(inp) && Willing(err)
    requires (exists k :: 0 <= k < MAX_FD && p.slots[k].dev == None) && forall k :: 0 <= k < MAX_FD ==> !p.slots[k].flags.excl
    ensures var q := Redirect(p, out, inp, err);
            && q.slots[0].dev == inp.target && q.slots[0].flags == Flags(false, inp.target.value.Device?, O_RDONLY)
            && q.slots[1].dev == out.target && q.slots[1].flags == Flags(false, out.target.value.Device?, O_WRONLY)
            && q.slots[2].dev == err.target && q.slots[2].flags == Flags(false, err.target.value.Device?, O_WRONLY)
  {
    OpenFdWilling(p, 1, out, O_WRONLY);
    var p1 := OpenFd(p, 1, out.target, O_WRONLY, out.driver);
    MovedInv(p, p1, 1, out.target.value, O_WRONLY);
    OpenFdWilling(p1, 0, inp, O_RDONLY);
    var p2 := OpenFd(p1, 0, inp.target, O_RDONLY, inp.driver);
    MovedInv(p1, p2, 0, inp.target.value, O_RDONLY);
    OpenFdWilling(p2, 2, err, O_WRONLY);
  }

  /** May the operation be called in this state? */
  predicate Enabled(p: Pool, op: Op) {
    match op
    case OpClose(file, _) => Usable(p, file)
    case OpIoctl(file, _, _) => Usable(p, file)
    case _ => true
  }

  function Step(p: Pool, op: Op): Pool
    requires |p.slots| == MAX_FD && p.maxFd < MAX_FD && Enabled(p, op)
  {
    match op
    case OpOpen(target, mode, driver) => Open(p, target, mode, driver).0
    case OpClose(file, driver) => Close(p, file, driver).0
    case OpIoctl(file, request, driver) => Ioctl(p, file, request, driver).0
    case OpRedirect(out, inp, err) => Redirect(p, out, inp, err)
  }

  lemma StepInv(p: Pool, op: Op)
    requires Inv(p) && Enabled(p, op)
    ensures Inv(Step(p, op))
  {
    match op
    case OpOpen(target, mode, driver) => OpenInv(p, target, mode, driver);
    case OpClose(file, driver) => CloseInv(p, file, driver);
    case OpIoctl(file, request, driver) => IoctlInv(p, file, request, driver);
    case OpRedirect(out, inp, err) => RedirectConserves(p, out, inp, err);
  }

  /** A run: each state is the previous one after an enabled operation. */
  ghost predicate Run(states: seq<Pool>, ops: seq<Op>) {
    |states| == |ops| + 1
    && forall k :: 0 <= k < |ops| ==>
         && |states[k].slots| == MAX_FD && states[k].maxFd < MAX_FD
         && Enabled(states[k], ops[k]) && states[k + 1] == Step(states[k], ops[k])
  }

  /** In every state of every run from startup the invariant holds; in particular no device is locked
      through two descriptors. */
  lemma {:induction false} RunInv(states: seq<Pool>, ops: seq<Op>, k: nat)
    requires Run(states, ops) && states[0] == INITIAL && k < |states|
    ensures Inv(states[k])
  {
    if k == 0 {
      InitialInv();
    } else {
      RunInv(states, ops, k - 1);
      StepInv(states[k - 1], ops[k - 1]);
    }
  }

  /** Descriptor f holds the lock of device d. */
  predicate Holds(p: Pool, f: nat, d: Dev) {
    f < |p.slots| && p.slots[f].dev == Some(d) && p.slots[f].flags.excl
  }

  /** The other descriptors on the device. */
  function Others(p: Pool, f: nat, d: Dev): set<nat> {
    set i: nat | i < |p.slots| && i != f && p.slots[i].dev == Some(d)
  }

  /** Operations that may give the lock up: closing the descriptor, unlocking it, or redirecting it if
      it is a standard one. */
  predicate GivesUp(op: Op, f: nat) {
    match op
    case OpClose(file, _) => file == f && f > 2
    case OpIoctl(file, request, _) => file == f && request == TIOCNXCL
    case OpRedirect(_, _, _) => f < 3
    case _ => false
  }

  lemma OpenLock(p: Pool, target: Option<Dev>, mode: nat, driver: Option<Reply>, f: nat, d: Dev)
    requires Inv(p) && Holds(p, f, d)
    ensures var q := Open(p, target, mode, driver).0;
            Holds(q, f, d) && Others(q, f, d) <= Others(p, f, d)
  {
    OpenDiscipline(p, target, mode, driver);
    OpenSucceedsIff(p, target, mode, driver);
    var (q, r) := Open(p, target, mode, driver);
    assert r.Ok? ==> target != Some(d);
    assert forall i :: 0 <= i < MAX_FD && q.slots[i].dev == Some(d) ==> p.slots[i].dev == Some(d);
  }

  /** Redirection never sets a lock, ends one only on the stream it redirects, and adds no descriptor
      to a device that is locked. */
  lemma OpenFdLock(p: Pool, slot: nat, target: Option<Dev>, mode: nat, driver: Option<Reply>, f: nat, d: Dev)
    requires Inv(p) && slot < 3
    ensures var q := OpenFd(p, slot, target, mode, driver);
            && (Holds(q, f, d) ==> Holds(p, f, d) && Others(q, f, d) <= Others(p, f, d))
            && (Holds(p, f, d) && f != slot ==> Holds(q, f, d))
  {
    OpenFdConserves(p, slot, target, mode, driver);
    var q := OpenFd(p, slot, target, mode, driver);
    if Holds(q, f, d) {
      assert Holds(p, f, d);
      assert forall i :: 0 <= i < MAX_FD && q.slots[i].dev == Some(d) ==> p.slots[i].dev == Some(d);
    }
  }

  lemma RedirectLock(p: Pool, out: Stream, inp: Stream, err: Stream, f: nat, d: Dev)
    requires Inv(p) && Holds(p, f, d)
    ensures var q := Redirect(p, out, inp, err);
            && (Holds(q, f, d) ==> Others(q, f, d) <= Others(p, f, d))
            && (f >= 3 ==> Holds(q, f, d))
  {
    var p1 := OpenFd(p, 1, out.target, O_WRONLY, out.driver);
    OpenFdConserves(p, 1, out.target, O_WRONLY, out.driver);
    OpenFdLock(p, 1, out.target, O_WRONLY, out.driver, f, d);
    var p2 := OpenFd(p1, 0, inp.target, O_RDONLY, inp.driver);
    OpenFdConserves(p1, 0, inp.target, O_RDONLY, inp.driver);
    OpenFdLock(p1, 0, inp.target, O_RDONLY, inp.driver, f, d);
    OpenFdLock(p2, 2, err.target, O_WRONLY, err.driver, f, d);
  }

  /** While a lock is held, no operation adds a descriptor to the device; and only one that gives the
      lock up ends it. */
  lemma LockStep(p: Pool, op: Op, f: nat, d: Dev)
    requires Inv(p) && Enabled(p, op) && Holds(p, f, d)
    ensures Holds(Step(p, op), f, d) ==> Others(Step(p, op), f, d) <= Others(p, f, d)
    ensures !GivesUp(op, f) ==> Holds(Step(p, op), f, d)
  {
    match op
    case OpOpen(target, mode, driver) => OpenLock(p, target, mode, driver, f, d);
    case OpClose(file, driver) =>
    case OpIoctl(file, request, driver) =>
    case OpRedirect(out, inp, err) => RedirectLock(p, out, inp, err, f, d);
  }

  /** Exclusive access over whole runs: from a state in which f holds the lock of device d, as long as
      no operation gives the lock up, f keeps it and the other descriptors on d can only get fewer. */
  lemma {:induction false} ExclusiveAccess(states: seq<Pool>, ops: seq<Op>, f: nat, d: Dev, k: nat)
    requires Run(states, ops) && Inv(states[0]) && Holds(states[0], f, d) && k < |states|
    requires forall i :: 0 <= i < k ==> !GivesUp(ops[i], f)
    ensures Inv(states[k]) && Holds(states[k], f, d)
    ensures Others(states[k], f, d) <= Others(states[0], f, d)
  {
    if k > 0 {
      ExclusiveAccess(states, ops, f, d, k - 1);
      StepInv(states[k - 1], ops[k - 1]);
      LockStep(states[k - 1], ops[k - 1], f, d);
    }
  }

  /** Is the descriptor at the high-water mark the one other user of the device? */
  predicate Hidden(p: Pool, file: nat)
    requires file < |p.slots| && p.slots[file].dev.Some?
  {
    p.maxFd >= 0 && Others(p, file, p.slots[file].dev.value) == {p.maxFd}
  }

  /** A lock is granted exactly to the sole user of a device, as its description promises, if and only
      if the descriptor at the high-water mark is not the one other user of it. */
  lemma LockSoundIff(p: Pool, file: nat)
    requires Inv(p) && file < MAX_FD && p.slots[file].flags.dev
    ensures (LockGranted(p, file) <==> SoleOwner(p, file)) <==> !Hidden(p, file)
  {
    var others := Others(p, file, p.slots[file].dev.value);
    assert SoleOwner(p, file) <==> others == {} by {
      assert forall i: nat :: i in others <==> i < MAX_FD && i != file && p.slots[i].dev == p.slots[file].dev;
    }
    assert forall i :: i in others ==> i <= p.maxFd;
    if LockGranted(p, file) {
      assert others <= {p.maxFd};
    }
    if Hidden(p, file) {
      assert p.maxFd in others;
      assert forall i: nat :: i < MAX_FD && i !in others && i != file ==> p.slots[i].dev != p.slots[file].dev;
    }
  }

  /** A scan through the high-water mark inclusive would grant the lock exactly to sole users. */
  lemma InclusiveScanSound(p: Pool, file: nat)
    requires Inv(p) && file < MAX_FD && p.slots[file].flags.dev
    ensures (forall i :: 0 <= i <= p.maxFd && i != file ==> p.slots[i].dev != p.slots[file].dev)
            <==> SoleOwner(p, file)
  {
    forall i | p.maxFd < i < MAX_FD
      ensures p.slots[i].dev != p.slots[file].dev
    {
      assert p.slots[i].dev == None;
    }
  }

  /** The failing case is reachable: open one device twice, and the first descriptor, 3, is granted the
      lock although 4 refers to the device too. */
  lemma HiddenReachable()
    ensures var d := Device(1);
            var ops := [OpOpen(Some(d), 0, None), OpOpen(Some(d), 0, None), OpIoctl(3, TIOCEXCL, None)];
            exists states :: Run(states, ops) && states[0] == INITIAL
              && Hidden(states[2], 3) && Holds(states[3], 3, d) && 4 in Others(states[3], 3, d)
  {
    var d := Device(1);
    var p1 := Open(INITIAL, Some(d), 0, None).0;
    assert INITIAL.slots[3].dev == None && FirstFree(INITIAL.slots, 0) == 3;
    assert p1.slots[3] == Fd(Some(d), 0, Flags(false, true, 0)) && p1.maxFd == 3;
    var p2 := Open(p1, Some(d), 0, None).0;
    assert p1.slots[4].dev == None && FirstFree(p1.slots, 0) == 4;
    assert p2.slots[4] == Fd(Some(d), 0, Flags(false, true, 0)) && p2.slots[3] == p1.slots[3] && p2.maxFd == 4;
    var p3 := Ioctl(p2, 3, TIOCEXCL, None).0;
    var ops := [OpOpen(Some(d), 0, None), OpOpen(Some(d), 0, None), OpIoctl(3, TIOCEXCL, None)];
    var states := [INITIAL, p1, p2, p3];
    assert Run(states, ops);
    assert Others(p2, 3, d) == {4};
    assert Hidden(states[2], 3) && Holds(states[3], 3, d) && 4 in Others(states[3], 3, d);
  }
}
