/**
 * The rotating file writer of rotation/rotate.go: a `Logger` that owns one
 * open file and, before every write, decides whether to move to a new one,
 * either daily at a set time of day or once the current file has reached a
 * size limit, cycling through a fixed set of numbered slot files.
 *
 * Every operation takes the file system state and returns the new one; the
 * clock reading, the executable's directory and the time-stamp formatter
 * are parameters.
 */
module Rotation {
  import opened Wrappers
  import opened Bytes
  import opened FileSystem
  import opened PathName

  /** `RotationType`: `DailyRotation` is 1 and `SizedRotation` is 2 in the source. */
  datatype RotationType = DailyRotation | SizedRotation

  /**
   * `Logger`. Times are integer nanoseconds of local wall-clock time;
   * `cutover` is `currentFileTime`. `index` is `fnRotateIndex`, `slots` is
   * `fnRotate` and `used` is `fnRotateUsed`. `file` is the current
   * `*os.File`, `None` being nil.
   */
  datatype Logger = Logger(
    filename: Bytes,
    rType: RotationType,
    hour: int,
    minute: int,
    cutover: int,
    timeFormat: Bytes,
    maxSize: int,
    size: int,
    maxNum: int,
    index: int,
    slots: seq<Bytes>,
    used: seq<bool>,
    file: Option<Handle>,
    locked: bool)

  /**
   * What the writer reads from its surroundings: the executable's directory
   * as `filepath.Abs(filepath.Dir(os.Args[0]))` returns it, and
   * `time.Time.Format`, given the layout and the instant.
   */
  datatype Env = Env(exeDir: Result<Bytes, Error>, format: (Bytes, int) -> Bytes)

  const Minute: int := 60_000_000_000
  const Hour: int := 60 * Minute
  const Day: int := 24 * Hour

  /** `time.Time{}`, year 1, as nanoseconds relative to the Unix epoch. */
  const ZeroTime: int := -62_135_596_800_000_000_000

  const DefaultMaxSize: int := 1024 * 1024
  const DefaultMaxNum: int := 10
  const DefaultTimeFormat: Bytes := Ascii("_2006_01_02_15_04")

  /** The shape every size-policy logger has from construction on. */
  predicate SizeValid(l: Logger) {
    && 1 <= l.maxSize && 1 <= l.maxNum
    && |l.slots| == l.maxNum && |l.used| == l.maxNum
    && -1 <= l.index < l.maxNum
  }

  predicate Valid(l: Logger) {
    l.rType == SizedRotation ==> SizeValid(l)
  }

  /** The fields the slot loop may change are `index`, `size` and `used`; this says all others are equal. */
  predicate SameConfig(l: Logger, l': Logger) {
    l' == l.(index := l'.index, size := l'.size, used := l'.used)
  }

  // ---------------------------------------------------------------------
  // Size policy
  // ---------------------------------------------------------------------

  /** The slot file names `path + prefix + strconv.Itoa(i) + suffix` for `i` in `0 .. n-1`. */
  function SlotNames(parts: Parts, n: nat): (names: seq<Bytes>)
    ensures |names| == n
    ensures forall i | 0 <= i < n :: names[i] == parts.path + parts.prefix + Decimal(i) + parts.suffix
  {
    seq(n, i requires 0 <= i < n => parts.path + parts.prefix + Decimal(i) + parts.suffix)
  }

  /** Different slots never share a file: the decimal index is the only varying part and it is injective. */
  lemma SlotNamesDistinct(parts: Parts, n: nat, i: nat, j: nat)
    requires i < n && j < n && i != j
    ensures SlotNames(parts, n)[i] != SlotNames(parts, n)[j]
  {
    var a, b := SlotNames(parts, n)[i], SlotNames(parts, n)[j];
    var k := |parts.path + parts.prefix|;
    if a == b {
      assert |Decimal(i)| == |Decimal(j)| by {
        assert |a| == k + |Decimal(i)| + |parts.suffix|;
        assert |b| == k + |Decimal(j)| + |parts.suffix|;
      }
      assert a[k..k + |Decimal(i)|] == Decimal(i);
      assert b[k..k + |Decimal(j)|] == Decimal(j);
      DecimalInjective(i, j);
    }
  }

  /** How many slots have not been used yet. */
  function Unused(used: seq<bool>): (n: nat)
    ensures n <= |used|
  {
    if |used| == 0 then 0 else (if used[0] then 0 else 1) + Unused(used[1..])
  }

  /** Marking a slot used lowers the unused count by one exactly when it was unused. */
  lemma {:induction false} UnusedMark(used: seq<bool>, i: nat)
    requires i < |used|
    ensures Unused(used[i := true]) == if used[i] then Unused(used) else Unused(used) - 1
  {
    if i > 0 {
      assert used[i := true][1..] == used[1..][i - 1 := true];
      UnusedMark(used[1..], i - 1);
    }
  }

  /** The result of opening a new file: the updated logger, the file system, and `(*os.File, error)`. */
  datatype Opened = Opened(l: Logger, fs: FS, res: Result<Option<Handle>, Error>)

  /**
   * One iteration of the slot loop: advance the index cyclically, remove the
   * slot's file if this logger used it before, open it for append, take its
   * current size as the byte count and mark the slot used. An error returns
   * at once, with the index already advanced and nothing else changed.
   */
  function SlotStep(l: Logger, fs: FS): (r: Opened)
    requires SizeValid(l)
    ensures SizeValid(r.l) && SameConfig(l, r.l)
    ensures r.l.index == (l.index + 1) % l.maxNum
    ensures r.fs.denied == fs.denied && r.fs.stdout == fs.stdout && r.fs.stdoutOpen == fs.stdoutOpen
    ensures var name := l.slots[r.l.index];
      && (r.res.Ok? <==> name !in fs.denied && (l.used[r.l.index] ==> name in fs.files))
      && (r.res.Err? ==> r.l.size == l.size && r.l.used == l.used)
      && (r.res.Ok? ==>
            && r.res.value == Some(FileH(name))
            && r.l.used == l.used[r.l.index := true]
            && name in r.fs.files && r.l.size == |r.fs.files[name]|
            && (l.used[r.l.index] ==> r.fs.files == fs.files[name := []])
            && (!l.used[r.l.index] && name in fs.files ==> r.fs.files == fs.files)
            && (!l.used[r.l.index] && name !in fs.files ==> r.fs.files == fs.files[name := []]))
      && (forall q | q != name :: (q in r.fs.files <==> q in fs.files))
      && (forall q | q != name && q in fs.files :: r.fs.files[q] == fs.files[q])
  {
    var i := (l.index + 1) % l.maxNum;
    var name := l.slots[i];
    var rm := if l.used[i] then Remove(fs, name) else Done(fs, None);
    if rm.err.Some? then Opened(l.(index := i), rm.fs, Err(rm.err.value))
    else
      match OpenAppend(rm.fs, name)
      case Err(e) => Opened(l.(index := i), rm.fs, Err(e))
      case Ok((fs', h)) =>
        assert l.used[i] ==> fs' == fs.(files := fs.files[name := []]) by {
          if l.used[i] {
            assert (fs.files - {name})[name := []] == fs.files[name := []];
          }
        }
        Opened(l.(index := i, size := Size(fs', name), used := l.used[i := true]), fs', Ok(Some(h)))
  }

  /**
   * `openNewSizeFile` from the loop state reached so far, `logFile` being the
   * handle the previous iteration opened. The loop runs while the byte count
   * is at least `maxSize`. It ends because each iteration either marks an
   * unused slot or reuses a used one, which recreates that file empty.
   */
  function OpenNewSizeFileFrom(l: Logger, fs: FS, logFile: Option<Handle>): (r: Opened)
    requires SizeValid(l)
    ensures SizeValid(r.l) && SameConfig(l, r.l)
    ensures r.fs.denied == fs.denied && r.fs.stdout == fs.stdout && r.fs.stdoutOpen == fs.stdoutOpen
    ensures r.res.Ok? ==> r.l.size < r.l.maxSize
    ensures r.res.Err? ==> r.l.size >= r.l.maxSize
    ensures l.size < l.maxSize ==> r == Opened(l, fs, Ok(logFile))
    ensures l.size >= l.maxSize && r.res.Ok? ==>
      && 0 <= r.l.index
      && r.res.value == Some(FileH(r.l.slots[r.l.index]))
      && r.l.used[r.l.index]
      && r.l.slots[r.l.index] in r.fs.files
      && r.l.size == |r.fs.files[r.l.slots[r.l.index]]|
    decreases Unused(l.used) + (if l.size >= l.maxSize then 1 else 0)
  {
    if l.size < l.maxSize then Opened(l, fs, Ok(logFile))
    else
      var s := SlotStep(l, fs);
      if s.res.Err? then s
      else
        UnusedMark(l.used, s.l.index);
        OpenNewSizeFileFrom(s.l, s.fs, s.res.value)
  }

  /** Slots kept marked from `a` to `b` and from `b` to `c` are kept marked from `a` to `c`. */
  lemma KeepsChain(a: seq<bool>, b: seq<bool>, c: seq<bool>)
    requires |a| == |b| && forall j | 0 <= j < |a| && a[j] :: b[j]
    requires |b| == |c| && forall j | 0 <= j < |b| && b[j] :: c[j]
    ensures forall j | 0 <= j < |a| && a[j] :: c[j]
  {
  }

  /** A slot the slot loop finds used stays used. */
  lemma {:induction false} SlotLoopKeepsUsed(l: Logger, fs: FS, logFile: Option<Handle>)
    requires SizeValid(l)
    ensures var r := OpenNewSizeFileFrom(l, fs, logFile);
      forall j | 0 <= j < |l.used| && l.used[j] :: r.l.used[j]
    decreases Unused(l.used) + (if l.size >= l.maxSize then 1 else 0)
  {
    if l.size >= l.maxSize {
      var s := SlotStep(l, fs);
      if s.res.Ok? {
        UnusedMark(l.used, s.l.index);
        SlotLoopKeepsUsed(s.l, s.fs, s.res.value);
        KeepsChain(l.used, s.l.used, OpenNewSizeFileFrom(s.l, s.fs, s.res.value).l.used);
      }
    }
  }

  /** Files that are not slots are neither created, removed nor changed by the slot loop. */
  lemma {:induction false} SlotLoopKeepsOthers(l: Logger, fs: FS, logFile: Option<Handle>)
    requires SizeValid(l)
    ensures var r := OpenNewSizeFileFrom(l, fs, logFile);
      && (forall q | q !in l.slots :: (q in r.fs.files <==> q in fs.files))
      && (forall q | q !in l.slots && q in fs.files :: r.fs.files[q] == fs.files[q])
    decreases Unused(l.used) + (if l.size >= l.maxSize then 1 else 0)
  {
    if l.size >= l.maxSize {
      var s := SlotStep(l, fs);
      if s.res.Ok? {
        UnusedMark(l.used, s.l.index);
        SlotLoopKeepsOthers(s.l, s.fs, s.res.value);
      }
    }
  }

  /**
   * `openNewSizeFile`: the slot loop starting with no file opened yet. Below
   * the limit it opens nothing and returns no file and no error; otherwise
   * it ends on a slot whose file is open and below the limit, or fails.
   */
  function OpenNewSizeFile(l: Logger, fs: FS): (r: Opened)
    requires SizeValid(l)
    ensures SizeValid(r.l) && SameConfig(l, r.l)
    ensures l.size < l.maxSize ==> r == Opened(l, fs, Ok(None))
    ensures r.res.Err? ==> r.l.size >= r.l.maxSize
    ensures l.size >= l.maxSize && r.res.Ok? ==>
      && r.l.size < r.l.maxSize
      && 0 <= r.l.index
      && r.res.value == Some(FileH(r.l.slots[r.l.index]))
      && r.l.used[r.l.index]
      && r.l.slots[r.l.index] in r.fs.files
      && r.l.size == |r.fs.files[r.l.slots[r.l.index]]|
  {
    OpenNewSizeFileFrom(l, fs, None)
  }

  /**
   * The common case of a rotation: the next slot is free on disk or holds
   * less than `maxSize` bytes and is not one this logger has used. Then the
   * loop stops there and keeps appending to whatever the file holds.
   */
  lemma NextSlotKept(l: Logger, fs: FS)
    requires SizeValid(l) && l.size >= l.maxSize
    requires var name := l.slots[(l.index + 1) % l.maxNum];
      !l.used[(l.index + 1) % l.maxNum] && name !in fs.denied
      && (name in fs.files ==> |fs.files[name]| < l.maxSize)
    ensures var r := OpenNewSizeFile(l, fs); var i := (l.index + 1) % l.maxNum;
      && r.res == Ok(Some(FileH(l.slots[i])))
      && r.l == l.(index := i, size := Size(fs, l.slots[i]), used := l.used[i := true])
      && (l.slots[i] in fs.files ==> r.fs == fs)
      && (l.slots[i] !in fs.files ==> r.fs == fs.(files := fs.files[l.slots[i] := []]))
  {
  }

  /**
   * Once every slot has been used, a rotation overwrites the oldest file:
   * the next slot's file is removed and recreated empty.
   */
  lemma NextSlotOverwritten(l: Logger, fs: FS)
    requires SizeValid(l) && l.size >= l.maxSize
    requires var i := (l.index + 1) % l.maxNum;
      l.used[i] && l.slots[i] !in fs.denied && l.slots[i] in fs.files
    ensures var r := OpenNewSizeFile(l, fs); var i := (l.index + 1) % l.maxNum;
      && r.res == Ok(Some(FileH(l.slots[i])))
      && r.l == l.(index := i, size := 0)
      && r.fs.files == fs.files[l.slots[i] := []]
  {
    var i := (l.index + 1) % l.maxNum;
    assert l.used[i := true] == l.used;
  }

  // ---------------------------------------------------------------------
  // Daily policy
  // ---------------------------------------------------------------------

  /** `hour:minute` as nanoseconds after midnight; values outside a day carry over. */
  function TimeOfDay(hour: int, minute: int): int {
    hour * Hour + minute * Minute
  }

  /** Whether `x` is an instant at time of day `offset` (nanoseconds after midnight). */
  predicate Scheduled(x: int, offset: int) {
    (x - offset) % Day == 0
  }

  /**
   * `currentFileTime` as `openNewDailyFile` computes it: today at
   * `hour:minute`, moved back one day if that lies after `now`. Out-of-range
   * hours and minutes carry over into neighbouring days as `time.Date` does.
   */
  function Cutover(now: int, hour: int, minute: int): (c: int)
    ensures Scheduled(c, TimeOfDay(hour, minute))
  {
    var today := now - now % Day + TimeOfDay(hour, minute);
    if today > now then today - Day else today
  }

  /**
   * For an hour and minute inside one day, the cutover is the latest instant
   * at that time of day not after `now`: it is at most `now`, less than a
   * day before it, and every earlier such instant is at or before it.
   */
  lemma CutoverIsLatest(now: int, hour: int, minute: int)
    requires 0 <= TimeOfDay(hour, minute) < Day
    ensures var c := Cutover(now, hour, minute);
      && Scheduled(c, TimeOfDay(hour, minute))
      && c <= now < c + Day
      && forall x | Scheduled(x, TimeOfDay(hour, minute)) && x <= now :: x <= c
  {
    var off := TimeOfDay(hour, minute);
    var c := Cutover(now, hour, minute);
    forall x | Scheduled(x, off) && x <= now
      ensures x <= c
    {
      if x > c {
        SameTimeOfDay(c, x, off);
      }
    }
  }

  /** Two instants at the same time of day are a whole number of days apart. */
  lemma SameTimeOfDay(a: int, b: int, offset: int)
    requires Scheduled(a, offset) && Scheduled(b, offset) && a < b
    ensures a + Day <= b
  {
    var p, q := (a - offset) / Day, (b - offset) / Day;
    assert a - offset == Day * p;
    assert b - offset == Day * q;
    assert Day * p < Day * q;
    assert p < q;
    assert Day * p + Day <= Day * q;
  }

  /**
   * The daily schedule: a file opened at `openedAt` is replaced by a write at
   * `now` exactly when a scheduled time of day has passed strictly between
   * the two, so moving the clock less than a day past the cutover never
   * rotates and moving it further always does.
   */
  lemma DailySchedule(openedAt: int, now: int, hour: int, minute: int)
    requires 0 <= TimeOfDay(hour, minute) < Day && openedAt <= now
    ensures var c := Cutover(openedAt, hour, minute);
      now - Day > c <==> exists x | openedAt < x < now :: Scheduled(x, TimeOfDay(hour, minute))
  {
    var off := TimeOfDay(hour, minute);
    var c := Cutover(openedAt, hour, minute);
    CutoverIsLatest(openedAt, hour, minute);
    if now - Day > c {
      assert Scheduled(c + Day, off);
    }
    if exists x | openedAt < x < now :: Scheduled(x, off) {
      var x :| openedAt < x < now && Scheduled(x, off);
      SameTimeOfDay(c, x, off);
    }
  }

  /**
   * With a time of day more than a day before midnight (a negative hour such
   * as -25), the cutover is always more than a day in the past, so every
   * later write reopens the file.
   */
  lemma NegativeOffsetAlwaysRotates(openedAt: int, now: int, hour: int, minute: int)
    requires TimeOfDay(hour, minute) < -Day && openedAt <= now
    ensures now - Day > Cutover(openedAt, hour, minute)
  {
  }

  /**
   * With a time of day two or more days ahead (hour 48, say) moving back one
   * day is not enough: the cutover stays in the future.
   */
  lemma LateOffsetCutoverInFuture(now: int, hour: int, minute: int)
    requires TimeOfDay(hour, minute) >= 2 * Day
    ensures Cutover(now, hour, minute) > now
  {
  }

  /** The daily file name: `path + prefix + time.Now().Format(timeFormat) + suffix`. */
  function DailyName(parts: Parts, env: Env, l: Logger, now: int): Bytes {
    parts.path + parts.prefix + env.format(l.timeFormat, now) + parts.suffix
  }

  /**
   * `openNewDailyFile`. A failure in `getPathFileName` leaves the cutover
   * alone; once that has succeeded the cutover is recomputed even if the
   * open then fails.
   */
  function OpenNewDailyFile(l: Logger, fs: FS, env: Env, now: int): (r: Opened)
    ensures r.fs.denied == fs.denied && r.fs.stdout == fs.stdout && r.fs.stdoutOpen == fs.stdoutOpen
    ensures GetPathFileName(fs, env.exeDir, l.filename).Err? ==> r.l == l && r.fs == fs && r.res.Err?
    ensures GetPathFileName(fs, env.exeDir, l.filename).Ok? ==>
      r == OpenDailyAt(l, fs, env, now, GetPathFileName(fs, env.exeDir, l.filename).value)
  {
    match GetPathFileName(fs, env.exeDir, l.filename)
    case Err(e) => Opened(l, fs, Err(e))
    case Ok(parts) => OpenDailyAt(l, fs, env, now, parts)
  }

  /** The part of `openNewDailyFile` after the name has resolved into `parts`. */
  function OpenDailyAt(l: Logger, fs: FS, env: Env, now: int, parts: Parts): (r: Opened)
    ensures r.fs.denied == fs.denied && r.fs.stdout == fs.stdout && r.fs.stdoutOpen == fs.stdoutOpen
    ensures var name := DailyName(parts, env, l, now);
      && r.l == l.(cutover := Cutover(now, l.hour, l.minute))
      && (r.res.Ok? <==> name !in fs.denied)
      && (r.res.Ok? ==> r.res.value == Some(FileH(name)) && name in r.fs.files)
      && (forall q | q != name :: (q in r.fs.files <==> q in fs.files))
      && (forall q | q in fs.files :: q in r.fs.files && r.fs.files[q] == fs.files[q])
  {
    var l' := l.(cutover := Cutover(now, l.hour, l.minute));
    match OpenAppend(fs, DailyName(parts, env, l, now))
    case Err(e) => Opened(l', fs, Err(e))
    case Ok((fs', h)) => Opened(l', fs', Ok(Some(h)))
  }

  // ---------------------------------------------------------------------
  // Write, rotate, close
  // ---------------------------------------------------------------------

  /** The test at the top of `rotate`. */
  predicate NeedsRotation(l: Logger, now: int) {
    match l.rType
    case DailyRotation => now - Day > l.cutover
    case SizedRotation => l.size >= l.maxSize
  }

  /**
   * Whether rotation is due depends on one quantity per policy: the clock for
   * a daily file, where once due it stays due as time passes, and the byte
   * count for a sized file, whatever the time.
   */
  lemma RotationDue(l: Logger, now: int, later: int)
    requires now <= later
    ensures l.rType.DailyRotation? && NeedsRotation(l, now) ==> NeedsRotation(l, later)
    ensures l.rType.DailyRotation? ==> (NeedsRotation(l, now) <==> NeedsRotation(l.(size := 0), now))
    ensures l.rType.SizedRotation? ==> (NeedsRotation(l, now) <==> NeedsRotation(l, later))
    ensures l.rType.SizedRotation? ==> (NeedsRotation(l, now) <==> l.size >= l.maxSize)
  {
  }

  /** The opener `rotate` calls for the logger's policy. */
  function Reopen(l: Logger, fs: FS, env: Env, now: int): (r: Opened)
    requires Valid(l)
    ensures Valid(r.l)
  {
    match l.rType
    case DailyRotation => OpenNewDailyFile(l, fs, env, now)
    case SizedRotation => OpenNewSizeFile(l, fs)
  }

  /** A logger and the file system after `rotate`. */
  datatype Rotated = Rotated(l: Logger, fs: FS)

  /**
   * `rotate`: when rotation is due, open the replacement, close the current
   * handle whatever happened, and continue on the new file or, if opening
   * failed, on standard output.
   */
  function Rotate(l: Logger, fs: FS, env: Env, now: int): (r: Rotated)
    requires Valid(l)
    ensures Valid(r.l)
    ensures !NeedsRotation(l, now) ==> r == Rotated(l, fs)
    ensures NeedsRotation(l, now) ==>
      var o := Reopen(l, fs, env, now);
      && r.l == o.l.(file := if o.res.Ok? then o.res.value else Some(StdoutH))
      && r.fs.files == o.fs.files
      && r.fs.stdoutOpen == (o.fs.stdoutOpen && l.file != Some(StdoutH))
  {
    if !NeedsRotation(l, now) then Rotated(l, fs)
    else
      var o := Reopen(l, fs, env, now);
      var closed := CloseHandle(o.fs, l.file);
      Rotated(o.l.(file := if o.res.Ok? then o.res.value else Some(StdoutH)), closed.fs)
  }

  /** The result of `Write`: the logger, the file system, and `(n, err)`. */
  datatype Outcome = Outcome(l: Logger, fs: FS, n: nat, err: Option<Error>)

  /**
   * `Write(p)`: rotate if due, write `p` to the current handle and add the
   * count actually written to the byte count, which is all of `p` or, on an
   * error, nothing.
   */
  function Write(l: Logger, fs: FS, env: Env, now: int, p: Bytes): (r: Outcome)
    requires Valid(l)
    ensures Valid(r.l)
    ensures r.err == None ==> r.n == |p|
    ensures r.err != None ==> r.n == 0
    ensures var rot := Rotate(l, fs, env, now);
      && r.l == rot.l.(size := rot.l.size + r.n)
      && r.fs == WriteTo(rot.fs, rot.l.file, p).fs
      && (r.err == None <==> rot.l.file.Some? && (rot.l.file.value.StdoutH? ==> rot.fs.stdoutOpen))
  {
    var rot := Rotate(l, fs, env, now);
    var w := WriteTo(rot.fs, rot.l.file, p);
    Outcome(rot.l.(size := rot.l.size + w.n), w.fs, w.n, w.err)
  }

  /** A size-policy logger writing through the slot file its index names, whose length is the byte count. */
  predicate Tracking(l: Logger, fs: FS) {
    && SizeValid(l) && l.rType == SizedRotation && 0 <= l.index
    && l.file == Some(FileH(l.slots[l.index]))
    && l.slots[l.index] in fs.files
    && |fs.files[l.slots[l.index]]| == l.size
  }

  /**
   * The size policy's accounting: as long as rotations succeed, the byte
   * count is the length of the current slot file, `p` is appended to that
   * file, and the count before the write is below `maxSize`, so no file
   * grows past `maxSize - 1` plus one write.
   */
  lemma WriteKeepsTracking(l: Logger, fs: FS, env: Env, now: int, p: Bytes)
    requires Tracking(l, fs)
    requires l.size >= l.maxSize ==> OpenNewSizeFile(l, fs).res.Ok?
    ensures var r := Write(l, fs, env, now, p);
      && Tracking(r.l, r.fs)
      && r.err == None
      && r.l.size < r.l.maxSize + |p|
      && |p| <= |r.fs.files[r.l.slots[r.l.index]]|
      && r.fs.files[r.l.slots[r.l.index]][|r.fs.files[r.l.slots[r.l.index]]| - |p|..] == p
  {
    var rot := Rotate(l, fs, env, now);
    var r := Write(l, fs, env, now, p);
    var name := rot.l.slots[rot.l.index];
    assert rot.l.file == Some(FileH(name));
    assert r.fs.files[name] == rot.fs.files[name] + p;
  }

  /**
   * A failed size rotation falls back to standard output and leaves the
   * byte count at or above `maxSize`, so the next write tries to rotate again.
   */
  lemma SizeFailureRetries(l: Logger, fs: FS, env: Env, now: int, p: Bytes)
    requires SizeValid(l) && l.rType == SizedRotation && l.size >= l.maxSize
    requires OpenNewSizeFile(l, fs).res.Err?
    ensures var r := Write(l, fs, env, now, p);
      && r.l.file == Some(StdoutH)
      && NeedsRotation(r.l, now)
  {
  }

  /**
   * A second failing rotation while the logger is already on standard
   * output closes the process's standard output: the write that follows
   * fails and loses its bytes.
   */
  lemma RepeatedFailureClosesStdout(l: Logger, fs: FS, env: Env, now: int, p: Bytes)
    requires Valid(l) && l.file == Some(StdoutH) && fs.stdoutOpen
    requires NeedsRotation(l, now) && Reopen(l, fs, env, now).res.Err?
    ensures var r := Write(l, fs, env, now, p);
      && r.l.file == Some(StdoutH) && !r.fs.stdoutOpen
      && r.n == 0 && r.err == Some(Closed)
  {
  }

  /** The result of `Close`: the logger, the file system and the error. */
  datatype Shut = Shut(l: Logger, fs: FS, err: Option<Error>)

  /**
   * `Close`: close the current handle, if any, and forget it. A logger that
   * fell back to standard output closes standard output for good.
   */
  function Close(l: Logger, fs: FS): (r: Shut)
    ensures r.l == l.(file := None)
    ensures r.fs.files == fs.files && r.fs.stdout == fs.stdout && r.fs.denied == fs.denied
    ensures r.fs.stdoutOpen == (fs.stdoutOpen && l.file != Some(StdoutH))
    ensures l.file == None ==> r == Shut(l, fs, None)
    ensures l.file != None ==> r.err == CloseHandle(fs, l.file).err
  {
    if l.file.None? then Shut(l, fs, None)
    else
      var d := CloseHandle(fs, l.file);
      Shut(l.(file := None), d.fs, d.err)
  }

  /** Closing twice is harmless: the second call returns no error and changes nothing. */
  lemma CloseIdempotent(l: Logger, fs: FS)
    ensures var c := Close(l, fs); Close(c.l, c.fs) == Shut(c.l, c.fs, None)
  {
  }

  // ---------------------------------------------------------------------
  // Construction
  // ---------------------------------------------------------------------

  /** A constructor's result: the logger (`nil` is `None`), the file system and the error. */
  datatype Created = Created(l: Option<Logger>, fs: FS, err: Option<Error>)

  /**
   * `NewSizeLogger`: normalise the limits, build the slot names, start with
   * the index before slot 0 and the byte count at the limit so that the
   * first open rotates into slot 0. A name that cannot be resolved gives no
   * logger; a failed first open gives a logger without a file, and the error.
   */
  function NewSizeLogger(fs: FS, env: Env, filename: Bytes, maxSize: int, maxNum: int, locked: bool): (r: Created)
    ensures r.l.None? <==> GetPathFileName(fs, env.exeDir, filename).Err?
    ensures r.l.Some? ==>
      var l := r.l.value;
      var parts := GetPathFileName(fs, env.exeDir, filename).value;
      && SizeValid(l) && l.rType == SizedRotation
      && l.maxSize == (if maxSize <= 0 then DefaultMaxSize else maxSize)
      && l.maxNum == (if maxNum < 1 then DefaultMaxNum else maxNum)
      && l.slots == SlotNames(parts, l.maxNum)
      && l.filename == filename && l.locked == locked
      && (r.err == None <==> l.file.Some?)
      && (r.err == None ==> Tracking(l, r.fs))
  {
    var maxSize' := if maxSize <= 0 then DefaultMaxSize else maxSize;
    var maxNum' := if maxNum < 1 then DefaultMaxNum else maxNum;
    match GetPathFileName(fs, env.exeDir, filename)
    case Err(e) => Created(None, fs, Some(e))
    case Ok(parts) =>
      var o := OpenNewSizeFile(FreshSizeLogger(filename, parts, maxSize', maxNum', locked), fs);
      match o.res
      case Err(e) => Created(Some(o.l), o.fs, Some(e))
      case Ok(h) => Created(Some(o.l.(file := h)), o.fs, None)
  }

  /** The logger `NewSizeLogger` builds before its first open: no slot used, index before slot 0, byte count at the limit. */
  function FreshSizeLogger(filename: Bytes, parts: Parts, maxSize: int, maxNum: int, locked: bool): (l: Logger)
    requires 1 <= maxSize && 1 <= maxNum
    ensures SizeValid(l) && l.rType == SizedRotation && l.file == None
    ensures l.index == -1 && l.size == l.maxSize == maxSize && l.maxNum == maxNum
    ensures l.slots == SlotNames(parts, maxNum) && forall j | 0 <= j < maxNum :: !l.used[j]
  {
    Logger(filename, SizedRotation, 0, 0, ZeroTime, [], maxSize, maxSize, maxNum, -1,
           SlotNames(parts, maxNum), seq(maxNum, _ => false), None, locked)
  }

  /**
   * The first open always starts at slot 0. When that file is missing or
   * shorter than the limit it is where the logger stays, appending to what
   * the file already holds, with slot 0 the only slot marked used.
   */
  lemma NewSizeLoggerStartsAtSlotZero(fs: FS, env: Env, filename: Bytes, maxSize: int, maxNum: int, locked: bool, parts: Parts)
    requires GetPathFileName(fs, env.exeDir, filename) == Ok(parts)
    requires var slot0 := parts.path + parts.prefix + Decimal(0) + parts.suffix;
      slot0 !in fs.denied && (slot0 in fs.files ==> |fs.files[slot0]| < if maxSize <= 0 then DefaultMaxSize else maxSize)
    ensures var r := NewSizeLogger(fs, env, filename, maxSize, maxNum, locked);
      && r.err == None && r.l.Some?
      && r.l.value.index == 0 && r.l.value.size == Size(fs, r.l.value.slots[0])
      && r.l.value.used[0] && forall j | 0 < j < |r.l.value.used| :: !r.l.value.used[j]
  {
    var maxSize' := if maxSize <= 0 then DefaultMaxSize else maxSize;
    var maxNum' := if maxNum < 1 then DefaultMaxNum else maxNum;
    var l := FreshSizeLogger(filename, parts, maxSize', maxNum', locked);
    FirstOpen(fs, l, parts);
    NewSizeLoggerOpens(fs, env, filename, maxSize, maxNum, locked, parts);
  }

  lemma FirstOpen(fs: FS, l: Logger, parts: Parts)
    requires SizeValid(l) && l.index == -1 && l.size == l.maxSize && l.slots == SlotNames(parts, l.maxNum)
    requires forall j | 0 <= j < l.maxNum :: !l.used[j]
    requires var slot0 := parts.path + parts.prefix + Decimal(0) + parts.suffix;
      slot0 !in fs.denied && (slot0 in fs.files ==> |fs.files[slot0]| < l.maxSize)
    ensures var o := OpenNewSizeFile(l, fs);
      && o.res == Ok(Some(FileH(l.slots[0])))
      && o.l.index == 0 && o.l.size == Size(fs, l.slots[0])
      && o.l.used[0] && (forall j | 0 < j < |o.l.used| :: !o.l.used[j])
      && (l.slots[0] !in fs.files ==> o.fs == fs.(files := fs.files[l.slots[0] := []]))
  {
    assert l.slots[0] == parts.path + parts.prefix + Decimal(0) + parts.suffix;
    NextSlotKept(l, fs);
  }

  lemma NewSizeLoggerOpens(fs: FS, env: Env, filename: Bytes, maxSize: int, maxNum: int, locked: bool, parts: Parts)
    requires GetPathFileName(fs, env.exeDir, filename) == Ok(parts)
    ensures var o := OpenNewSizeFile(FreshSizeLogger(filename, parts,
                                       if maxSize <= 0 then DefaultMaxSize else maxSize,
                                       if maxNum < 1 then DefaultMaxNum else maxNum, locked), fs);
      NewSizeLogger(fs, env, filename, maxSize, maxNum, locked)
        == if o.res.Ok? then Created(Some(o.l.(file := o.res.value)), o.fs, None)
           else Created(Some(o.l), o.fs, Some(o.res.error))
  {
  }

  /**
   * `NewDailyLogger`: always returns a logger, with the default file-name
   * time format; the cutover is set as soon as the name resolves, and the
   * logger has a file exactly when no error is returned.
   */
  function NewDailyLogger(fs: FS, env: Env, now: int, filename: Bytes, hour: int, minute: int, locked: bool): (r: Created)
    ensures r.l.Some?
    ensures var l := r.l.value;
      && l.rType == DailyRotation && l.hour == hour && l.minute == minute
      && l.timeFormat == DefaultTimeFormat && l.filename == filename && l.locked == locked
      && (r.err == None <==> l.file.Some?)
      && (GetPathFileName(fs, env.exeDir, filename).Ok? ==> l.cutover == Cutover(now, hour, minute))
    ensures GetPathFileName(fs, env.exeDir, filename).Err? ==>
      && r.fs == fs && r.err == Some(GetPathFileName(fs, env.exeDir, filename).error)
      && r.l.value.cutover == ZeroTime && r.l.value.file == None
    ensures GetPathFileName(fs, env.exeDir, filename).Ok? ==>
      var name := DailyName(GetPathFileName(fs, env.exeDir, filename).value, env, r.l.value, now);
      && (r.err == None <==> name !in fs.denied)
      && (r.err == None ==> r.l.value.file == Some(FileH(name)) && name in r.fs.files)
      && (r.err != None ==> r.fs == fs)
      && (forall q | q != name :: (q in r.fs.files <==> q in fs.files))
      && (forall q | q in fs.files :: q in r.fs.files && r.fs.files[q] == fs.files[q])
  {
    var l := Logger(filename, DailyRotation, hour, minute, ZeroTime, DefaultTimeFormat, 0, 0, 0, 0, [], [], None, locked);
    var o := OpenNewDailyFile(l, fs, env, now);
    match o.res
    case Err(e) => Created(Some(o.l), o.fs, Some(e))
    case Ok(h) => Created(Some(o.l.(file := h)), o.fs, None)
  }

  /**
   * The first rotation of a new daily logger. When its name resolved, the
   * cutover is the latest scheduled instant, so a write at the same instant
   * does not rotate. When it did not, the cutover stays at the zero time and
   * every write later than a day after it rotates.
   */
  lemma NewDailyLoggerFirstRotation(fs: FS, env: Env, now: int, filename: Bytes, hour: int, minute: int, locked: bool, later: int)
    requires 0 <= TimeOfDay(hour, minute) < Day
    ensures var l := NewDailyLogger(fs, env, now, filename, hour, minute, locked).l.value;
      && (GetPathFileName(fs, env.exeDir, filename).Ok? ==> !NeedsRotation(l, now))
      && (GetPathFileName(fs, env.exeDir, filename).Err? ==> (NeedsRotation(l, later) <==> later - Day > ZeroTime))
  {
    CutoverIsLatest(now, hour, minute);
  }

  /** `SetTimeFormat`: only the layout of future daily file names changes. */
  function SetTimeFormat(l: Logger, format: Bytes): (r: Logger)
    ensures r.timeFormat == format && r.(timeFormat := l.timeFormat) == l
  {
    l.(timeFormat := format)
  }

  /** The name of slot `i`. */
  function Slot(parts: Parts, i: nat): Bytes {
    parts.path + parts.prefix + Decimal(i) + parts.suffix
  }

  /**
   * Three writes of 60 bytes with a limit of 100 bytes and two slots, both
   * files absent at the start: the first two writes both go to slot 0,
   * because rotation is checked before a write and 60 is below the limit,
   * so slot 0 ends with 120 bytes; the third write finds 120 >= 100,
   * rotates, and lands alone in slot 1. No other file changes.
   */
  lemma SizeExample(fs: FS, env: Env, now: int, filename: Bytes, parts: Parts, locked: bool,
                    maxSize: int, maxNum: int, w1: Bytes, w2: Bytes, w3: Bytes)
    requires GetPathFileName(fs, env.exeDir, filename) == Ok(parts)
    requires maxSize == 100 && maxNum == 2
    requires |w1| == 60 && |w2| == 60 && |w3| == 60
    requires Slot(parts, 0) !in fs.files && Slot(parts, 0) !in fs.denied
    requires Slot(parts, 1) !in fs.files && Slot(parts, 1) !in fs.denied
    ensures var c := NewSizeLogger(fs, env, filename, maxSize, maxNum, locked);
      c.l.Some? && c.err == None && Valid(c.l.value) &&
      var o1 := Write(c.l.value, c.fs, env, now, w1);
      var o2 := Write(o1.l, o1.fs, env, now, w2);
      var o3 := Write(o2.l, o2.fs, env, now, w3);
      && o3.err == None
      && o3.l.index == 1 && o3.l.size == 60
      && o3.fs.files == fs.files[Slot(parts, 0) := w1 + w2][Slot(parts, 1) := w3]
  {
    var s0, s1 := Slot(parts, 0), Slot(parts, 1);
    ExampleStart(fs, env, filename, parts, locked, maxSize, maxNum);
    var c := NewSizeLogger(fs, env, filename, maxSize, maxNum, locked);
    ExampleWrites(c.l.value, c.fs, fs.files, env, now, w1, w2, w3, s0, s1);
  }

  lemma ExampleStart(fs: FS, env: Env, filename: Bytes, parts: Parts, locked: bool, maxSize: int, maxNum: int)
    requires GetPathFileName(fs, env.exeDir, filename) == Ok(parts)
    requires maxSize == 100 && maxNum == 2
    requires Slot(parts, 0) !in fs.files && Slot(parts, 0) !in fs.denied
    ensures var c := NewSizeLogger(fs, env, filename, maxSize, maxNum, locked);
      && c.l.Some? && c.err == None
      && var l := c.l.value;
      && SizeValid(l) && l.rType == SizedRotation && l.maxNum == 2 && l.maxSize == 100
      && l.slots == [Slot(parts, 0), Slot(parts, 1)] && Slot(parts, 0) != Slot(parts, 1)
      && l.index == 0 && l.size == 0 && l.used == [true, false]
      && l.file == Some(FileH(Slot(parts, 0)))
      && c.fs == fs.(files := fs.files[Slot(parts, 0) := []])
  {
    SlotNamesDistinct(parts, 2, 0, 1);
    ExampleFirstOpen(fs, filename, parts, locked);
    NewSizeLoggerOpens(fs, env, filename, maxSize, maxNum, locked, parts);
  }

  /** The first open of the example: slot 0 is created empty and becomes the only used slot. */
  lemma ExampleFirstOpen(fs: FS, filename: Bytes, parts: Parts, locked: bool)
    requires Slot(parts, 0) !in fs.files && Slot(parts, 0) !in fs.denied
    ensures var l0 := FreshSizeLogger(filename, parts, 100, 2, locked);
      && l0.slots == [Slot(parts, 0), Slot(parts, 1)]
      && OpenNewSizeFile(l0, fs)
         == Opened(l0.(index := 0, size := 0, used := [true, false]),
                   fs.(files := fs.files[Slot(parts, 0) := []]), Ok(Some(FileH(Slot(parts, 0)))))
  {
    var l0 := FreshSizeLogger(filename, parts, 100, 2, locked);
    assert l0.slots == [Slot(parts, 0), Slot(parts, 1)];
    assert l0.used[0 := true] == [true, false];
    NextSlotKept(l0, fs);
  }

  lemma ExampleWrites(l: Logger, fs: FS, files: map<Bytes, Bytes>, env: Env, now: int,
                      w1: Bytes, w2: Bytes, w3: Bytes, s0: Bytes, s1: Bytes)
    requires SizeValid(l) && l.rType == SizedRotation && l.maxNum == 2 && l.maxSize == 100
    requires l.slots == [s0, s1] && s0 != s1 && l.index == 0 && l.size == 0 && l.used == [true, false]
    requires l.file == Some(FileH(s0)) && fs.files == files[s0 := []] && s1 !in files && s1 !in fs.denied
    requires |w1| == 60 && |w2| == 60 && |w3| == 60
    ensures var o1 := Write(l, fs, env, now, w1);
      var o2 := Write(o1.l, o1.fs, env, now, w2);
      var o3 := Write(o2.l, o2.fs, env, now, w3);
      && o3.err == None
      && o3.l.index == 1 && o3.l.size == 60
      && o3.fs.files == files[s0 := w1 + w2][s1 := w3]
  {
    var o1 := Write(l, fs, env, now, w1);
    var o2 := Write(o1.l, o1.fs, env, now, w2);
    ExampleTwoWrites(l, fs, env, now, w1, w2);
    ExampleThirdWrite(o2.l, o2.fs, env, now, w3, s0, s1);
    MapOverwrite(files, s0, [], w1 + w2);
  }

  lemma MapOverwrite<K, V>(m: map<K, V>, k: K, a: V, b: V)
    ensures m[k := a][k := b] == m[k := b]
  {
  }

  lemma ExampleTwoWrites(l: Logger, fs: FS, env: Env, now: int, w1: Bytes, w2: Bytes)
    requires SizeValid(l) && l.rType == SizedRotation && l.maxSize == 100 && l.size == 0
    requires l.file.Some? && l.file.value.FileH? && l.file.value.path in fs.files
    requires fs.files[l.file.value.path] == [] && |w1| == 60
    ensures var o1 := Write(l, fs, env, now, w1);
      var o2 := Write(o1.l, o1.fs, env, now, w2);
      && o2.l == l.(size := 60 + |w2|)
      && o2.fs == fs.(files := fs.files[l.file.value.path := w1 + w2])
  {
    var path := l.file.value.path;
    QuietWrite(l, fs, env, now, w1);
    var o1 := Write(l, fs, env, now, w1);
    assert [] + w1 == w1;
    assert o1.fs.files == fs.files[path := w1];
    QuietWrite(o1.l, o1.fs, env, now, w2);
  }

  /** Below the limit a size-policy write goes straight to the current file. */
  lemma QuietWrite(l: Logger, fs: FS, env: Env, now: int, p: Bytes)
    requires SizeValid(l) && l.rType == SizedRotation && l.size < l.maxSize
    requires l.file.Some? && l.file.value.FileH? && l.file.value.path in fs.files
    ensures var o := Write(l, fs, env, now, p);
      && o.err == None && o.n == |p|
      && o.l == l.(size := l.size + |p|)
      && o.fs == fs.(files := fs.files[l.file.value.path := fs.files[l.file.value.path] + p])
  {
  }

  lemma ExampleThirdWrite(l: Logger, fs: FS, env: Env, now: int, w3: Bytes, s0: Bytes, s1: Bytes)
    requires SizeValid(l) && l.rType == SizedRotation && l.maxNum == 2 && l.maxSize == 100
    requires l.slots == [s0, s1] && s0 != s1 && l.index == 0 && l.size == 120 && l.used == [true, false]
    requires l.file == Some(FileH(s0)) && s0 in fs.files && s1 !in fs.files && s1 !in fs.denied
    ensures var o := Write(l, fs, env, now, w3);
      && o.err == None && o.l.index == 1 && o.l.size == |w3|
      && o.fs.files == fs.files[s1 := w3]
  {
    NextSlotKept(l, fs);
    var rot := Rotate(l, fs, env, now);
    assert rot.l.file == Some(FileH(s1)) && rot.fs.files == fs.files[s1 := []];
    assert [] + w3 == w3;
  }
}
