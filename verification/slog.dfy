/**
 * The slice of Go's `log/slog` data model the handler consumes: levels,
 * the tagged `Value`, `Attr`, `Record`, and the empty-group helpers of
 * rotation/var.go.
 */
module Slog {
  import opened Wrappers
  import opened Bytes

  /** `slog.Level`: an integer severity; the named levels are four apart. */
  type Level = int

  const LevelDebug: Level := -4
  const LevelInfo: Level := 0
  const LevelWarn: Level := 4
  const LevelError: Level := 8

  /** `slog.Level.String`: the name of the nearest named level at or below, plus a signed offset. */
  function LevelName(l: Level): Bytes {
    if l < LevelInfo then Offset(Ascii("DEBUG"), l - LevelDebug)
    else if l < LevelWarn then Offset(Ascii("INFO"), l - LevelInfo)
    else if l < LevelError then Offset(Ascii("WARN"), l - LevelWarn)
    else Offset(Ascii("ERROR"), l - LevelError)
  }

  /** `base` alone for a zero offset, otherwise `base` followed by `%+d` of the offset. */
  function Offset(base: Bytes, delta: int): Bytes {
    if delta == 0 then base
    else if delta > 0 then base + Ascii("+") + Decimal(delta)
    else base + SignedDecimal(delta)
  }

  /**
   * A `time.Time` already broken down into its UTC calendar fields; the
   * decomposition from an instant (and the local zone) is not modelled.
   */
  datatype Civil = Civil(year: nat, month: nat, day: nat, hour: nat, minute: nat, second: nat, nanosecond: nat)

  /** `time.Time.IsZero`: January 1, year 1, 00:00:00 UTC. */
  predicate IsZeroTime(t: Civil) {
    t == Civil(1, 1, 1, 0, 0, 0, 0)
  }

  /** `slog.Source`: the location `runtime.CallersFrames` reports for a record's PC. */
  datatype Source = Source(func: Bytes, file: Bytes, line: int)

  /**
   * What an `any` value turned out to be: something with a `MarshalText`
   * method (its result, or its error's text), a byte slice, a `*slog.Source`,
   * or anything else, carried by its `%+v` rendering.
   */
  datatype AnyPayload =
    | TextMarshaler(marshaled: Result<Bytes, Bytes>)
    | ByteSlice(bytes: Bytes)
    | SourceRef(source: Source)
    | Opaque(repr: Bytes)

  /**
   * `slog.Value`, one constructor per `slog.Kind`. A `LogValuer` carries the
   * value its `LogValue` method returns; a group carries its attributes.
   */
  datatype Value =
    | AnyV(payload: AnyPayload)
    | BoolV(b: bool)
    | DurationV(nanos: int)
    | Float64V(bits: bv64)
    | Int64V(i: int)
    | StringV(s: Bytes)
    | TimeV(t: Civil)
    | Uint64V(u: nat)
    | GroupV(attrs: seq<Attr>)
    | LogValuerV(inner: Value)

  /** `slog.Attr`: a key and a value. */
  datatype Attr = Attr(key: Bytes, value: Value)

  /** `slog.Record`, with the source location already looked up. */
  datatype Record = Record(time: Civil, level: Level, message: Bytes, source: Source, attrs: seq<Attr>)

  /** A measure that strictly shrinks from a group to each of its attributes. */
  function Size(v: Value): nat
  {
    match v
    case GroupV(attrs) => 1 + SizeAll(attrs)
    case LogValuerV(inner) => 1 + Size(inner)
    case _ => 1
  }

  function SizeAll(attrs: seq<Attr>): (n: nat)
    ensures |attrs| > 0 ==> Size(attrs[0].value) < n && SizeAll(attrs[1..]) < n
  {
    if |attrs| == 0 then 0 else 1 + Size(attrs[0].value) + SizeAll(attrs[1..])
  }

  /**
   * `Value.Resolve`: follows `LogValue` until the value is no longer a
   * `LogValuer`; every other kind is returned unchanged.
   */
  function Resolve(v: Value): (r: Value)
    ensures !r.LogValuerV?
    ensures !v.LogValuerV? ==> r == v
    ensures Size(r) <= Size(v)
  {
    match v
    case LogValuerV(inner) => Resolve(inner)
    case _ => v
  }

  /** rotation/var.go `isEmptyGroup`: a group value with no attributes; children are not examined. */
  predicate IsEmptyGroup(v: Value) {
    v.GroupV? && |v.attrs| == 0
  }

  /**
   * The test is shallow: a group whose only member is an empty group is not
   * empty, and neither is a `LogValuer` that would resolve to an empty group.
   * `slog.GroupValue` removes empty groups when it builds a group, so the
   * second value never reaches the handler from slog itself; the clause
   * records that the test does not look inside. The third one can arrive.
   */
  lemma EmptyGroupIsShallow(k: Bytes)
    ensures IsEmptyGroup(GroupV([]))
    ensures !IsEmptyGroup(GroupV([Attr(k, GroupV([]))]))
    ensures !IsEmptyGroup(LogValuerV(GroupV([])))
  {
  }

  /**
   * rotation/var.go `countEmptyGroups`: how many attributes of `attrs` have
   * an empty group as their value. It reaches `|attrs|` exactly when every
   * attribute is an empty group, which holds for the empty list.
   */
  function CountEmptyGroups(attrs: seq<Attr>): (n: nat)
    ensures n <= |attrs|
    ensures n == |attrs| <==> forall i | 0 <= i < |attrs| :: IsEmptyGroup(attrs[i].value)
  {
    if |attrs| == 0 then 0
    else
      var rest := CountEmptyGroups(attrs[1..]);
      assert forall i | 1 <= i < |attrs| :: attrs[i] == attrs[1..][i - 1];
      (if IsEmptyGroup(attrs[0].value) then 1 else 0) + rest
  }
}
