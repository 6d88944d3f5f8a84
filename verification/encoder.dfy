/**
 * The text encoder of rotation/default.go: `handleState` and its
 * `appendString`, `appendKey`, `appendAttr`, `openGroup`/`closeGroup`,
 * `appendTime` and `appendTextValue`, as pure functions on a state record.
 */
module Encoder {
  import opened Wrappers
  import opened Bytes
  import opened Slog
  import opened Quoting

  /**
   * The parts of Go's standard library the encoder calls and the model does
   * not define: the Unicode tables, `strconv.Quote`, float formatting,
   * `time.Duration.String` and `fmt`'s rendering of arbitrary Go values.
   */
  datatype Lib = Lib(
    unicode: Unicode,
    quote: Bytes -> Bytes,
    formatFloat: bv64 -> Bytes,
    formatDuration: int -> Bytes,
    formatAny: Value -> Bytes)

  /**
   * The `ReplaceAttr` hook of `slog.HandlerOptions`: the open group names and
   * an attribute in, an attribute out. `None` is Go's nil slice, which the
   * hook is handed for the built-in fields; a hook may tell it apart from the
   * empty slice it is handed for a record attribute outside any group.
   */
  type Hook = (Option<seq<Bytes>>, Attr) -> Attr

  /**
   * `handleState` without its pooling bookkeeping: the output buffer, the
   * separator to write before the next key, the dotted key prefix, and the
   * names of the open groups that are reported to the hook. `None` is Go's
   * nil list, which `Handle` installs for the built-in fields: opening and
   * closing groups then records nothing and the hook is handed the nil list.
   */
  datatype State = State(buf: Bytes, sep: Bytes, prefix: Bytes, groups: Option<seq<Bytes>>)

  /** The group list after `openGroups` of `names`; a nil list stays nil. */
  function PushAll(groups: Option<seq<Bytes>>, names: seq<Bytes>): (r: Option<seq<Bytes>>)
    ensures r.None? <==> groups.None?
    ensures groups.Some? ==> r.value == groups.value + names
  {
    if groups.Some? then Some(groups.value + names) else None
  }

  /** `attrSep()`: the separator between attributes. */
  const AttrSep: Bytes := [Space]

  /** `slog.SourceKey`. */
  const SourceKey: Bytes := Ascii("source")

  /** What `appendString` writes for `s`: `s` itself, or its Go-quoted form when it needs quoting. */
  function StringText(lib: Lib, s: Bytes): (r: Bytes)
    ensures !NeedsQuoting(lib.unicode, s) ==> r == s
    ensures NeedsQuoting(lib.unicode, s) ==> r == lib.quote(s)
  {
    if NeedsQuoting(lib.unicode, s) then lib.quote(s) else s
  }

  /**
   * `appendKey`: the pending separator, then prefix and key as one possibly
   * quoted string, then `=`; afterwards the separator is a single space.
   */
  function AppendKey(lib: Lib, st: State, key: Bytes): (r: State)
    ensures r.buf == st.buf + st.sep + StringText(lib, st.prefix + key) + [Equals]
    ensures r.sep == AttrSep
    ensures r.prefix == st.prefix && r.groups == st.groups
  {
    // Go only prepends a non-empty prefix; prepending an empty one is the same.
    st.(buf := st.buf + st.sep + StringText(lib, st.prefix + key) + [Equals], sep := AttrSep)
  }

  /** `openGroup`: extends the prefix by `name.` and records the name for the hook. */
  function OpenGroup(st: State, name: Bytes): (r: State)
    ensures r.prefix == st.prefix + name + [Dot]
    ensures r.groups == PushAll(st.groups, [name])
    ensures r.buf == st.buf && r.sep == st.sep
  {
    st.(prefix := st.prefix + name + [Dot], groups := if st.groups.Some? then Some(st.groups.value + [name]) else None)
  }

  /**
   * `closeGroup`: cuts `len(name)+1` bytes off the prefix and drops the last
   * group name. Go panics on a shorter prefix or an empty group list.
   */
  function CloseGroup(st: State, name: Bytes): (r: State)
    requires |name| + 1 <= |st.prefix| && (st.groups.Some? ==> 1 <= |st.groups.value|)
    ensures |r.prefix| == |st.prefix| - |name| - 1 && r.prefix == st.prefix[..|r.prefix|]
    ensures r.groups.None? <==> st.groups.None?
    ensures st.groups.Some? ==> r.groups.value == st.groups.value[..|st.groups.value| - 1]
    ensures r.buf == st.buf && r.sep == st.sep
  {
    st.(prefix := st.prefix[..|st.prefix| - |name| - 1],
        groups := if st.groups.Some? then Some(st.groups.value[..|st.groups.value| - 1]) else None)
  }

  /** Closing a group right after opening it restores prefix and group list exactly. */
  lemma CloseAfterOpen(st: State, name: Bytes)
    ensures CloseGroup(OpenGroup(st, name), name) == st
  {
    var o := OpenGroup(st, name);
    assert o.prefix[..|st.prefix|] == st.prefix;
    if st.groups.Some? {
      assert o.groups.value[..|st.groups.value|] == st.groups.value;
    }
  }

  /** The prefix contributed by a list of open groups: each name followed by a dot. */
  function GroupsPrefix(names: seq<Bytes>): Bytes
  {
    if |names| == 0 then [] else GroupsPrefix(names[..|names| - 1]) + names[|names| - 1] + [Dot]
  }

  /** `openGroups`: opens the given groups in order. */
  function OpenGroups(st: State, names: seq<Bytes>): (r: State)
    ensures r.prefix == st.prefix + GroupsPrefix(names)
    ensures r.groups == PushAll(st.groups, names)
    ensures r.buf == st.buf && r.sep == st.sep
  {
    if |names| == 0 then
      assert st.groups.Some? ==> st.groups.value + names == st.groups.value;
      st
    else
      var r := OpenGroup(OpenGroups(st, names[..|names| - 1]), names[|names| - 1]);
      assert names == names[..|names| - 1] + [names[|names| - 1]];
      assert st.groups.Some? ==>
        st.groups.value + names[..|names| - 1] + [names[|names| - 1]] == st.groups.value + names;
      r
  }

  /**
   * `appendTime`: `YYYY-MM-DDThh:mm:ss.fff` from the UTC fields, each field
   * zero-padded. The fraction is `nanosecond / 1e3`, the microseconds,
   * padded to at least three digits.
   */
  function TimeText(t: Civil): (r: Bytes)
    ensures 23 <= |r| && AllPlain(r)
  {
    var y, mo, d := PadDecimal(t.year, 4), PadDecimal(t.month, 2), PadDecimal(t.day, 2);
    var h, mi, s := PadDecimal(t.hour, 2), PadDecimal(t.minute, 2), PadDecimal(t.second, 2);
    var f := PadDecimal(t.nanosecond / 1000, 3);
    HeadPlain(y, mo, d, h, mi, s, f);
    Head(y, mo, d, h, mi, s) + f
  }

  /** Digits joined by the separators of the time layout never force quoting. */
  lemma HeadPlain(y: Bytes, mo: Bytes, d: Bytes, h: Bytes, mi: Bytes, s: Bytes, f: Bytes)
    requires AllDigits(y) && AllDigits(mo) && AllDigits(d) && AllDigits(h) && AllDigits(mi) && AllDigits(s) && AllDigits(f)
    ensures AllPlain(Head(y, mo, d, h, mi, s) + f)
  {
  }

  /** A broken-down time as `time.Time` produces it. */
  predicate InRange(t: Civil) {
    t.year <= 9999 && 1 <= t.month <= 12 && 1 <= t.day <= 31 && t.hour < 24 && t.minute < 60
    && t.second < 60 && t.nanosecond < 1000000000
  }

  /**
   * For a four-digit year the layout is fixed up to the fraction, every field
   * reads back from its columns, and the fraction reads back as the
   * microseconds, three to six digits long.
   */
  lemma TimeTextFields(t: Civil)
    requires InRange(t)
    ensures var r := TimeText(t);
      && 23 <= |r| <= 26
      && r[4] == Minus && r[7] == Minus && r[10] == DateClockSep && r[13] == Colon && r[16] == Colon && r[19] == Dot
      && AllDigits(r[..4]) && ParseDecimal(r[..4]) == t.year
      && AllDigits(r[5..7]) && ParseDecimal(r[5..7]) == t.month
      && AllDigits(r[8..10]) && ParseDecimal(r[8..10]) == t.day
      && AllDigits(r[11..13]) && ParseDecimal(r[11..13]) == t.hour
      && AllDigits(r[14..16]) && ParseDecimal(r[14..16]) == t.minute
      && AllDigits(r[17..19]) && ParseDecimal(r[17..19]) == t.second
      && AllDigits(r[20..]) && ParseDecimal(r[20..]) == t.nanosecond / 1000
  {
    var y, mo, d := PadDecimal(t.year, 4), PadDecimal(t.month, 2), PadDecimal(t.day, 2);
    var h, mi, s := PadDecimal(t.hour, 2), PadDecimal(t.minute, 2), PadDecimal(t.second, 2);
    var f := PadDecimal(t.nanosecond / 1000, 3);
    PadWidth(t.year, 4);
    PadWidth(t.month, 2);
    PadWidth(t.day, 2);
    PadWidth(t.hour, 2);
    PadWidth(t.minute, 2);
    PadWidth(t.second, 2);
    DecimalWidth(t.nanosecond / 1000, 6);
    var head := Head(y, mo, d, h, mi, s);
    HeadColumns(y, mo, d, h, mi, s);
    var r := TimeText(t);
    assert r == head + f;
    assert r[..20] == head && r[20..] == f;
    assert r[..4] == head[..4] == y;
    assert r[5..7] == head[5..7] == mo;
    assert r[8..10] == head[8..10] == d;
    assert r[11..13] == head[11..13] == h;
    assert r[14..16] == head[14..16] == mi;
    assert r[17..19] == head[17..19] == s;
  }

  /** The part of `appendTime`'s layout before the fraction. */
  function Head(y: Bytes, mo: Bytes, d: Bytes, h: Bytes, mi: Bytes, s: Bytes): Bytes {
    y + [Minus] + mo + [Minus] + d + [DateClockSep] + h + [Colon] + mi + [Colon] + s + [Dot]
  }

  lemma HeadColumns(y: Bytes, mo: Bytes, d: Bytes, h: Bytes, mi: Bytes, s: Bytes)
    requires |y| == 4 && |mo| == 2 && |d| == 2 && |h| == 2 && |mi| == 2 && |s| == 2
    ensures var r := Head(y, mo, d, h, mi, s);
      && |r| == 20
      && r[4] == Minus && r[7] == Minus && r[10] == DateClockSep && r[13] == Colon && r[16] == Colon && r[19] == Dot
      && r[..4] == y && r[5..7] == mo && r[8..10] == d && r[11..13] == h && r[14..16] == mi && r[17..19] == s
  {
    var date := y + [Minus] + mo + [Minus] + d;
    var clock := h + [Colon] + mi + [Colon] + s;
    FieldColumns(y, Minus, mo, Minus, d, date);
    FieldColumns(h, Colon, mi, Colon, s, clock);
    var r := Head(y, mo, d, h, mi, s);
    var tail := [DateClockSep] + clock + [Dot];
    assert r == date + tail;
    assert r[..10] == date;
    assert r[10..] == tail;
    assert r[11..19] == tail[1..9] == clock;
  }

  /** Three fields joined by two one-byte separators sit in fixed columns. */
  lemma FieldColumns(a: Bytes, sep1: Byte, b: Bytes, sep2: Byte, c: Bytes, r: Bytes)
    requires |b| == 2 && |c| == 2
    requires r == a + [sep1] + b + [sep2] + c
    ensures |r| == |a| + 6 && r[|a|] == sep1 && r[|a| + 3] == sep2
    ensures r[..|a|] == a && r[|a| + 1..|a| + 3] == b && r[|a| + 4..] == c
  {
  }

  /** A field below `10^w` is written in exactly `w` digits. */
  lemma PadWidth(n: nat, w: nat)
    requires 1 <= w && n < Pow10(w)
    ensures |PadDecimal(n, w)| == w
  {
    DecimalWidth(n, w);
  }

  /** A number below `10^w` has at most `w` digits. */
  lemma {:induction false} DecimalWidth(n: nat, w: nat)
    requires n < Pow10(w)
    ensures |Decimal(n)| <= if w == 0 then 1 else w
    decreases w
  {
    if n >= 10 {
      DecimalWidth(n / 10, w - 1);
    }
  }

  function Pow10(w: nat): nat {
    if w == 0 then 1 else 10 * Pow10(w - 1)
  }

  /** `fmt.Sprintf("%s:%d", file, line)` for a `*slog.Source`. */
  function SourceText(src: Source): Bytes {
    src.file + [Colon] + SignedDecimal(src.line)
  }

  /**
   * `appendValue`/`appendTextValue`: the text written for a value. Strings,
   * marshalled text, errors and `%+v` renderings pass through the quoting
   * rule; byte slices are always quoted; numbers, booleans and times are
   * written bare, and their text holds nothing that would force quotes.
   */
  function ValueText(lib: Lib, v: Value): (r: Bytes)
    ensures v.Int64V? || v.Uint64V? || v.BoolV? || v.TimeV? ==> |r| > 0 && AllPlain(r)
  {
    match v
    case StringV(s) => StringText(lib, s)
    case TimeV(t) => TimeText(t)
    case AnyV(payload) => (
      match payload
      case TextMarshaler(Ok(data)) => StringText(lib, data)
      case TextMarshaler(Err(e)) => StringText(lib, Ascii("!ERROR:") + e)
      case ByteSlice(bs) => lib.quote(bs)
      case SourceRef(_) => StringText(lib, lib.formatAny(v))
      case Opaque(repr) => StringText(lib, repr))
    case Int64V(i) => SignedPlain(i); SignedDecimal(i)
    case Uint64V(u) => DigitsArePlain(Decimal(u)); Decimal(u)
    case Float64V(bits) => lib.formatFloat(bits)
    case BoolV(b) =>
      var r := if b then Ascii("true") else Ascii("false");
      assert forall k | 0 <= k < |r| :: Plain(r[k]);
      r
    case DurationV(d) => lib.formatDuration(d)
    case GroupV(_) => lib.formatAny(v)
    case LogValuerV(_) => lib.formatAny(v)
  }

  /** Whether `appendAttr` hands `a` to the hook: a hook is set and the value is not a group. */
  predicate HookApplies(hook: Option<Hook>, a: Attr) {
    hook.Some? && !a.value.GroupV?
  }

  /**
   * Numbers, booleans and times are written bare and could not have been written
   * otherwise: the quoting rule leaves their text unchanged, and unsigned and
   * signed integers read back from it.
   */
  lemma BareValues(lib: Lib, v: Value)
    requires v.Int64V? || v.Uint64V? || v.BoolV? || v.TimeV?
    ensures !NeedsQuoting(lib.unicode, ValueText(lib, v))
    ensures StringText(lib, ValueText(lib, v)) == ValueText(lib, v)
    ensures v.Uint64V? ==> AllDigits(ValueText(lib, v)) && ParseDecimal(ValueText(lib, v)) == v.u
    ensures v.Int64V? && v.i >= 0 ==> AllDigits(ValueText(lib, v)) && ParseDecimal(ValueText(lib, v)) == v.i
    ensures v.Int64V? && v.i < 0 ==>
      var r := ValueText(lib, v); r[0] == Minus && AllDigits(r[1..]) && ParseDecimal(r[1..]) == -v.i
  {
    var r := ValueText(lib, v);
    if v.Uint64V? {
      DecimalRoundTrip(v.u);
    } else if v.Int64V? {
      DecimalRoundTrip(if v.i < 0 then -v.i else v.i);
    }
    PlainNeedsNoQuoting(lib.unicode, r);
  }

  lemma SignedPlain(i: int)
    ensures AllPlain(SignedDecimal(i))
  {
    DigitsArePlain(Decimal(if i < 0 then -i else i));
    if i < 0 {
      assert AllPlain([Minus]);
      PlainJoin([Minus], Decimal(-i));
    }
  }

  predicate IsSourceRef(v: Value) {
    v.AnyV? && v.payload.SourceRef?
  }

  /** A `*slog.Source` becomes the string `file:line`; every other value stays as it is. */
  function AsText(v: Value): (r: Value)
    ensures !IsSourceRef(r)
    ensures IsSourceRef(v) ==> r == StringV(SourceText(v.payload.source))
    ensures !IsSourceRef(v) ==> r == v
  {
    if IsSourceRef(v) then StringV(SourceText(v.payload.source)) else v
  }

  /**
   * The first half of `appendAttr`: resolve and call the hook (not for
   * groups), resolve again, and turn a `*slog.Source` into `file:line`.
   */
  function Prepare(hook: Option<Hook>, groups: Option<seq<Bytes>>, a: Attr): (p: Attr)
    ensures !p.value.LogValuerV? && !IsSourceRef(p.value)
    ensures HookApplies(hook, a) ==>
      var a1 := hook.value(groups, a.(value := Resolve(a.value)));
      p.key == a1.key && p.value == AsText(Resolve(a1.value))
    ensures !HookApplies(hook, a) ==> p.key == a.key && p.value == AsText(Resolve(a.value))
    ensures !HookApplies(hook, a) && p.value.GroupV? ==> p.value == Resolve(a.value)
    ensures !HookApplies(hook, a) && p.value.GroupV? ==> SizeAll(p.value.attrs) < Size(a.value)
  {
    var a1 := if HookApplies(hook, a) then hook.value(groups, a.(value := Resolve(a.value))) else a;
    var a2 := a1.(value := Resolve(a1.value));
    if a2.value.AnyV? && a2.value.payload.SourceRef? then a2.(value := StringV(SourceText(a2.value.payload.source)))
    else a2
  }

  /** A hook that drops every attribute it is handed with a nil group list. */
  function DropOnNil(groups: Option<seq<Bytes>>, a: Attr): (r: Attr)
    ensures groups.None? ==> r.key == []
    ensures groups.Some? ==> r == a
  {
    if groups.None? then a.(key := []) else a
  }

  /**
   * The hook can tell the nil group list of the built-in fields from the empty
   * list of a record attribute outside any group: the same attribute is
   * dropped in the first case and kept in the second.
   */
  lemma HookSeesNil(a: Attr)
    requires a.key != [] && !a.value.GroupV?
    ensures Prepare(Some(DropOnNil), None, a).key == []
    ensures Prepare(Some(DropOnNil), Some([]), a).key == a.key
  {
  }

  /** The guarantees every rendering step keeps: output only grows, prefix and groups come back unchanged. */
  predicate Extends(st: State, r: State) {
    && r.prefix == st.prefix && r.groups == st.groups
    && |st.buf| <= |r.buf| && r.buf[..|st.buf|] == st.buf
    && (r.sep == st.sep || r.sep == AttrSep)
  }

  /** Closing a group after rendering inside it gives back the state it was opened on, with more output. */
  lemma CloseAfterRender(st: State, name: Bytes, done: State)
    requires Extends(OpenGroup(st, name), done)
    ensures |name| + 1 <= |done.prefix| && (done.groups.Some? ==> 1 <= |done.groups.value|)
    ensures Extends(st, CloseGroup(done, name))
  {
    CloseAfterOpen(st, name);
  }

  /**
   * `appendAttr`. An attribute whose key is empty once prepared, and a group
   * with no attributes, write nothing. A non-empty group renders its
   * attributes one level deeper and then closes, so that prefix and groups
   * come back exactly; since empty keys returned early, the group is always
   * opened (Go's inlining of empty-key groups cannot happen). `fuel` bounds
   * how many groups made by the hook may nest.
   */
  function RenderAttr(lib: Lib, hook: Option<Hook>, fuel: nat, st: State, a: Attr): (r: State)
    ensures Extends(st, r)
    ensures Prepare(hook, st.groups, a).key == [] ==> r == st
    ensures IsEmptyGroup(Prepare(hook, st.groups, a).value) ==> r == st
    decreases fuel, Size(a.value), 0
  {
    var p := Prepare(hook, st.groups, a);
    if p.key == [] then st
    else if p.value.GroupV? then
      if |p.value.attrs| == 0 then st
      else if HookApplies(hook, a) && fuel == 0 then st
      else
        var inner := OpenGroup(st, p.key);
        var fuel' := if HookApplies(hook, a) then fuel - 1 else fuel;
        var done := RenderAttrs(lib, hook, fuel', inner, p.value.attrs);
        CloseAfterRender(st, p.key, done);
        CloseGroup(done, p.key)
    else
      var k := AppendKey(lib, st, p.key);
      k.(buf := k.buf + ValueText(lib, p.value))
  }

  /** `appendAttr` over a list, left to right. */
  function RenderAttrs(lib: Lib, hook: Option<Hook>, fuel: nat, st: State, attrs: seq<Attr>): (r: State)
    ensures Extends(st, r)
    decreases fuel, SizeAll(attrs), 1
  {
    if |attrs| == 0 then st
    else
      var mid := RenderAttr(lib, hook, fuel, st, attrs[0]);
      RenderAttrs(lib, hook, fuel, mid, attrs[1..])
  }
}
