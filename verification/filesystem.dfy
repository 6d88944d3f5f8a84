/**
 * The slice of the operating system the rotating writer touches: regular
 * files named by path (their contents only), the process's standard output,
 * and paths where the system refuses access. `os.Remove`, `os.OpenFile` with
 * `O_WRONLY|O_CREATE|O_APPEND`, `File.Stat`, `File.Write`, `File.Close` and
 * `os.MkdirAll` are functions from one state to the next.
 */
module FileSystem {
  import opened Wrappers
  import opened Bytes

  /** The errors the model distinguishes: `os.ErrNotExist`, `os.ErrPermission`, `os.ErrInvalid`, `os.ErrClosed`. */
  datatype Error = NotExist(path: Bytes) | Permission(path: Bytes) | Invalid | Closed

  /** An `*os.File`: a regular file opened for append, or `os.Stdout`. */
  datatype Handle = FileH(path: Bytes) | StdoutH

  /**
   * `files` maps each existing regular file to its contents; `denied` holds
   * the paths where every operation fails with a permission error;
   * `stdout` is what has reached standard output and `stdoutOpen` whether
   * file descriptor 1 is still open.
   */
  datatype FS = FS(files: map<Bytes, Bytes>, denied: set<Bytes>, stdout: Bytes, stdoutOpen: bool)

  /** The outcome of an operation: the new state and the error it returned, if any. */
  datatype Done = Done(fs: FS, err: Option<Error>)

  /** `os.Remove(path)`: fails on a refused path or a missing file, otherwise the file is gone. */
  function Remove(fs: FS, path: Bytes): (r: Done)
    ensures r.err == None <==> path !in fs.denied && path in fs.files
    ensures r.err == None ==> r.fs == fs.(files := fs.files - {path})
    ensures r.err != None ==> r.fs == fs
  {
    if path in fs.denied then Done(fs, Some(Permission(path)))
    else if path !in fs.files then Done(fs, Some(NotExist(path)))
    else Done(fs.(files := fs.files - {path}), None)
  }

  /**
   * `os.OpenFile(path, O_WRONLY|O_CREATE|O_APPEND, 0666)`: creates an empty
   * file when there is none and keeps an existing file's contents.
   */
  function OpenAppend(fs: FS, path: Bytes): (r: Result<(FS, Handle), Error>)
    ensures r.Ok? <==> path !in fs.denied
    ensures r.Ok? ==> r.value.1 == FileH(path) && path in r.value.0.files
    ensures r.Ok? && path in fs.files ==> r.value.0 == fs
    ensures r.Ok? && path !in fs.files ==> r.value.0 == fs.(files := fs.files[path := []])
  {
    if path in fs.denied then Err(Permission(path))
    else if path in fs.files then Ok((fs, FileH(path)))
    else Ok((fs.(files := fs.files[path := []]), FileH(path)))
  }

  /** `File.Stat().Size()` of a file just opened: the length of its contents. */
  function Size(fs: FS, path: Bytes): (n: nat)
    ensures path in fs.files ==> n == |fs.files[path]|
  {
    if path in fs.files then |fs.files[path]| else 0
  }

  /** The result of `File.Write`: the state, the count written and the error. */
  datatype Written = Written(fs: FS, n: nat, err: Option<Error>)

  /**
   * `File.Write(p)` on a possibly nil handle. A nil `*os.File` returns
   * `0, os.ErrInvalid`; a closed standard output returns `0, os.ErrClosed`;
   * a file appends all of `p`. A file removed by someone else while open
   * still accepts the bytes, which then reach no named file.
   */
  function WriteTo(fs: FS, h: Option<Handle>, p: Bytes): (r: Written)
    ensures r.err == None <==> (h.Some? && (h.value.StdoutH? ==> fs.stdoutOpen))
    ensures r.err == None ==> r.n == |p|
    ensures r.err != None ==> r.n == 0 && r.fs == fs
    ensures r.fs.denied == fs.denied && r.fs.stdoutOpen == fs.stdoutOpen
    ensures h == Some(StdoutH) && fs.stdoutOpen ==> r.fs == fs.(stdout := fs.stdout + p)
    ensures forall q | q in fs.files :: q in r.fs.files
    ensures forall q | q in r.fs.files :: q in fs.files
    ensures forall q | q in fs.files && (h.None? || h.value != FileH(q)) :: r.fs.files[q] == fs.files[q]
    ensures h.Some? && h.value.FileH? && h.value.path in fs.files ==>
      r.fs.files[h.value.path] == fs.files[h.value.path] + p
  {
    match h
    case None => Written(fs, 0, Some(Invalid))
    case Some(StdoutH) =>
      if fs.stdoutOpen then Written(fs.(stdout := fs.stdout + p), |p|, None)
      else Written(fs, 0, Some(Closed))
    case Some(FileH(path)) =>
      if path in fs.files then Written(fs.(files := fs.files[path := fs.files[path] + p]), |p|, None)
      else Written(fs, |p|, None)
  }

  /**
   * `File.Close()` on a possibly nil handle: nil gives `os.ErrInvalid`;
   * closing standard output closes descriptor 1 for the whole process, and a
   * second close gives `os.ErrClosed`. Regular files are never closed twice
   * by the writer, so their close always succeeds.
   */
  function CloseHandle(fs: FS, h: Option<Handle>): (r: Done)
    ensures r.fs.files == fs.files && r.fs.denied == fs.denied && r.fs.stdout == fs.stdout
    ensures r.err == None <==> (h.Some? && (h.value.StdoutH? ==> fs.stdoutOpen))
    ensures r.fs.stdoutOpen == (fs.stdoutOpen && h != Some(StdoutH))
  {
    match h
    case None => Done(fs, Some(Invalid))
    case Some(StdoutH) =>
      if fs.stdoutOpen then Done(fs.(stdoutOpen := false), None) else Done(fs, Some(Closed))
    case Some(FileH(_)) => Done(fs, None)
  }

  /**
   * `os.MkdirAll(dir, os.ModePerm)`. Directories are not modelled beyond
   * this: the empty path fails as it does on the system (there is nothing to
   * create) and so does a refused one.
   */
  function MkdirAll(fs: FS, dir: Bytes): (r: Option<Error>)
    ensures r == None <==> dir != [] && dir !in fs.denied
  {
    if dir == [] then Some(NotExist(dir))
    else if dir in fs.denied then Some(Permission(dir))
    else None
  }
}
