/**
 * `getPathFileName` of rotation/rotate.go: splits a configured log file
 * name into the directory to write in, the base name and the extension,
 * filling in defaults, anchoring relative directories at the executable's
 * directory and creating the directory.
 */
module PathName {
  import opened Wrappers
  import opened Bytes
  import opened FileSystem

  /** The three strings `getPathFileName` returns. */
  datatype Parts = Parts(path: Bytes, prefix: Bytes, suffix: Bytes)

  const DefaultPrefix: Bytes := Ascii("out")
  const DefaultSuffix: Bytes := Ascii(".log")

  predicate NoSlash(s: Bytes) {
    forall i | 0 <= i < |s| :: s[i] != Slash
  }

  /**
   * The string work for a non-empty name: `path` is the text up to and
   * including the last `/`; the prefix is the text between that slash and
   * the last `.` when the dot has index above 0 and follows the slash, or
   * the whole base name when there is no dot at all; the suffix runs from
   * the dot unless the dot ends the name. Empty prefix and suffix become
   * `out` and `.log`. A dot that only occurs in the directory part takes
   * neither branch, so such a base name is dropped in favour of `out`.
   */
  function Split(fn: Bytes): (p: Parts)
    requires |fn| > 0
    ensures p.path == fn[..LastIndex(fn, Slash) + 1]
    ensures |p.prefix| > 0 && NoSlash(p.prefix)
    ensures |p.suffix| > 0 && NoSlash(p.suffix)
  {
    var f := LastIndex(fn, Slash);
    var d := LastIndex(fn, Dot);
    var prefix := BaseName(fn, f, d);
    var suffix := Extension(fn, f, d);
    DefaultsHaveNoSlash();
    Parts(fn[..f + 1],
          if |prefix| == 0 then DefaultPrefix else prefix,
          if |suffix| == 0 then DefaultSuffix else suffix)
  }

  lemma DefaultsHaveNoSlash()
    ensures |DefaultPrefix| > 0 && NoSlash(DefaultPrefix)
    ensures |DefaultSuffix| > 0 && NoSlash(DefaultSuffix)
  {
  }

  /** The prefix `Split` takes from the name, before defaults; `f` and `d` are the last `/` and `.`. */
  function BaseName(fn: Bytes, f: int, d: int): (prefix: Bytes)
    requires f == LastIndex(fn, Slash) && -1 <= d < |fn|
    ensures NoSlash(prefix)
  {
    if d > 0 && f < d then NoSlashAfter(fn, f, f + 1, d); fn[f + 1..d]
    else if d == -1 then NoSlashAfter(fn, f, f + 1, |fn|); fn[f + 1..]
    else []
  }

  /** The suffix `Split` takes from the name, before defaults. */
  function Extension(fn: Bytes, f: int, d: int): (suffix: Bytes)
    requires f == LastIndex(fn, Slash) && -1 <= d < |fn|
    ensures NoSlash(suffix)
  {
    if d > 0 && f < d && d < |fn| - 1 then NoSlashAfter(fn, f, d, |fn|); fn[d..] else []
  }

  /** Every slice after the last `/` is free of slashes. */
  lemma NoSlashAfter(fn: Bytes, f: int, a: int, b: int)
    requires f == LastIndex(fn, Slash) && f < a <= b <= |fn|
    ensures NoSlash(fn[a..b])
  {
    assert forall i | 0 <= i < b - a :: fn[a..b][i] == fn[a + i];
  }

  /**
   * `getPathFileName(fn)` with the executable's directory
   * (`filepath.Abs(filepath.Dir(os.Args[0]))`, or the error it gave) as a
   * parameter. An absolute name keeps its own directory; any other name is
   * placed under the executable's directory, whose error is reported only
   * then. The empty name skips all string work and fails in
   * `os.MkdirAll("")`. On success the directory ends in `/` and exists.
   */
  function GetPathFileName(fs: FS, exeDir: Result<Bytes, Error>, fn: Bytes): (r: Result<Parts, Error>)
    ensures |fn| == 0 ==> r.Err?
    ensures r.Ok? ==> && |r.value.path| > 0 && r.value.path[|r.value.path| - 1] == Slash
                      && MkdirAll(fs, r.value.path) == None
    ensures |fn| > 0 && fn[0] == Slash ==>
      (r.Ok? <==> MkdirAll(fs, Split(fn).path) == None) && (r.Ok? ==> r.value == Split(fn))
    ensures |fn| > 0 && fn[0] != Slash && exeDir.Err? ==> r == Err(exeDir.error)
    ensures |fn| > 0 && fn[0] != Slash && exeDir.Ok? ==>
      var anchored := Split(fn).(path := exeDir.value + [Slash] + Split(fn).path);
      (r.Ok? <==> MkdirAll(fs, anchored.path) == None) && (r.Ok? ==> r.value == anchored)
  {
    if |fn| == 0 then Err(MkdirAll(fs, []).value)
    else
      var s := Split(fn);
      var dir := Anchor(exeDir, fn, s.path);
      assert dir.Ok? ==> |dir.value| > 0 && dir.value[|dir.value| - 1] == Slash;
      Place(fs, s, dir)
  }

  /** The last step: create the chosen directory and return the parts with it. */
  function Place(fs: FS, s: Parts, dir: Result<Bytes, Error>): (r: Result<Parts, Error>)
    ensures dir.Err? ==> r == Err(dir.error)
    ensures dir.Ok? ==> (r.Ok? <==> MkdirAll(fs, dir.value) == None)
    ensures r.Ok? ==> r.value == s.(path := dir.value)
  {
    match dir
    case Err(e) => Err(e)
    case Ok(path) =>
      match MkdirAll(fs, path)
      case Some(e) => Err(e)
      case None => Ok(s.(path := path))
  }

  /**
   * The directory to write in: the name's own directory when it is
   * absolute, the executable's directory joined with it otherwise.
   */
  function Anchor(exeDir: Result<Bytes, Error>, fn: Bytes, path: Bytes): (r: Result<Bytes, Error>)
    requires |fn| > 0 && path == fn[..LastIndex(fn, Slash) + 1]
    ensures r.Ok? ==> |r.value| > 0 && r.value[|r.value| - 1] == Slash
    ensures fn[0] == Slash ==> r == Ok(path)
    ensures fn[0] != Slash ==> r == (if exeDir.Ok? then Ok(exeDir.value + [Slash] + path) else Err(exeDir.error))
  {
    if |path| == 0 || path[0] != Slash then
      match exeDir
      case Err(e) => Err(e)
      case Ok(dir) => Ok(dir + [Slash] + path)
    else Ok(path)
  }

  /** A directory part as `Split` produces it: empty, or ending in `/`. */
  predicate IsDir(dir: Bytes) {
    |dir| == 0 || dir[|dir| - 1] == Slash
  }

  predicate NoDot(s: Bytes) {
    forall i | 0 <= i < |s| :: s[i] != Dot
  }

  /** `dir/name.ext` splits into exactly its three parts, which concatenate back to the name. */
  lemma SplitNameExt(fn: Bytes, dir: Bytes, name: Bytes, ext: Bytes)
    requires IsDir(dir) && |name| > 0 && NoSlash(name) && |ext| > 0 && NoSlash(ext) && NoDot(ext)
    requires fn == dir + name + [Dot] + ext
    ensures Split(fn) == Parts(dir, name, [Dot] + ext)
    ensures fn == Split(fn).path + Split(fn).prefix + Split(fn).suffix
  {
    assert fn == dir + name + ([Dot] + ext);
    var base := name + [Dot] + ext;
    assert fn == dir + base;
    LastSlashIsDir(fn, dir, base);
    LastDotAt(fn, dir + name, ext);
    SplitAt(fn, |dir| - 1, |dir| + |name|);
    Slices(fn, dir, name, [Dot] + ext);
  }

  lemma Slices(fn: Bytes, a: Bytes, b: Bytes, c: Bytes)
    requires fn == a + b + c
    ensures fn[..|a|] == a && fn[|a|..|a| + |b|] == b && fn[|a| + |b|..] == c
  {
  }

  lemma SplitAt(fn: Bytes, f: int, d: int)
    requires LastIndex(fn, Slash) == f && LastIndex(fn, Dot) == d && f + 1 < d < |fn| - 1
    ensures Split(fn) == Parts(fn[..f + 1], fn[f + 1..d], fn[d..])
  {
  }

  /** A name without any dot keeps its base name as prefix and gets `.log`. */
  lemma SplitNoDot(fn: Bytes, dir: Bytes, name: Bytes)
    requires IsDir(dir) && |name| > 0 && NoSlash(name) && fn == dir + name && NoDot(fn)
    ensures Split(fn) == Parts(dir, name, DefaultSuffix)
  {
    LastSlashIsDir(fn, dir, name);
    LastIndexIs(fn, Dot, -1);
    assert fn[|dir|..] == name;
  }

  /** A name ending in a dot keeps what precedes that dot as prefix and gets `.log`. */
  lemma SplitTrailingDot(fn: Bytes, dir: Bytes, name: Bytes)
    requires IsDir(dir) && |name| > 0 && NoSlash(name) && fn == dir + name + [Dot]
    ensures Split(fn) == Parts(dir, name, DefaultSuffix)
  {
    LastSlashIsDir(fn, dir, name + [Dot]);
    LastIndexIs(fn, Dot, |fn| - 1);
    assert fn[|dir|..|fn| - 1] == name;
  }

  /** A name that is only a dot has neither prefix nor suffix: both defaults apply. */
  lemma SplitBareDot(dir: Bytes)
    requires IsDir(dir)
    ensures Split(dir + [Dot]) == Parts(dir, DefaultPrefix, DefaultSuffix)
  {
    var fn := dir + [Dot];
    LastSlashIsDir(fn, dir, [Dot]);
    LastIndexIs(fn, Dot, |fn| - 1);
    assert fn[..|dir|] == dir;
  }

  /**
   * The dot-in-directory quirk: when the only dots are in the directory part,
   * as in `a.b/c`, the base name is dropped and the files are `out…log`.
   */
  lemma SplitDotInDirectory(fn: Bytes, dir: Bytes, name: Bytes)
    requires IsDir(dir) && !NoDot(dir) && NoSlash(name) && NoDot(name) && fn == dir + name
    ensures Split(fn) == Parts(dir, DefaultPrefix, DefaultSuffix)
  {
    assert |dir| > 0;
    LastSlashIsDir(fn, dir, name);
    var d := LastIndex(fn, Dot);
    var k :| 0 <= k < |dir| && dir[k] == Dot;
    assert fn[k] == Dot;
    assert forall i | |dir| <= i < |fn| :: fn[i] == name[i - |dir|];
    assert k <= d < |dir| - 1;
  }

  /**
   * A base name that starts with its only dot: with a directory the text
   * after the dot is the suffix and the prefix is `out`; without one the dot
   * sits at index 0, which fails the `> 0` test, so both defaults apply.
   */
  lemma SplitHiddenName(fn: Bytes, dir: Bytes, ext: Bytes)
    requires IsDir(dir) && |ext| > 0 && NoSlash(ext) && NoDot(ext) && fn == dir + [Dot] + ext
    ensures |dir| > 0 ==> Split(fn) == Parts(dir, DefaultPrefix, [Dot] + ext)
    ensures |dir| == 0 ==> Split(fn) == Parts(dir, DefaultPrefix, DefaultSuffix)
  {
    LastSlashIsDir(fn, dir, [Dot] + ext);
    LastDotAt(fn, dir, ext);
    assert fn[|dir|..] == [Dot] + ext;
  }

  /** A name that ends in `/` names only a directory: `out.log` inside it. */
  lemma SplitDirectoryOnly(dir: Bytes)
    requires |dir| > 0 && dir[|dir| - 1] == Slash
    ensures Split(dir) == Parts(dir, DefaultPrefix, DefaultSuffix)
  {
    assert dir[..|dir|] == dir;
  }

  /** The last `/` of `dir + base` ends `dir` when `base` has none. */
  lemma LastSlashIsDir(s: Bytes, dir: Bytes, base: Bytes)
    requires IsDir(dir) && NoSlash(base) && s == dir + base
    ensures LastIndex(s, Slash) == |dir| - 1
    ensures s[..|dir|] == dir
  {
    assert forall i | |dir| <= i < |s| :: s[i] == base[i - |dir|];
    LastIndexIs(s, Slash, |dir| - 1);
  }

  /** The last `.` of `s + "." + ext` is the one added when `ext` has none. */
  lemma LastDotAt(t: Bytes, s: Bytes, ext: Bytes)
    requires NoDot(ext) && t == s + [Dot] + ext
    ensures LastIndex(t, Dot) == |s|
  {
    assert forall i | |s| < i < |t| :: t[i] == ext[i - |s| - 1];
    LastIndexIs(t, Dot, |s|);
  }
}
