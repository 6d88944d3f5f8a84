/**
 * `DefaultHandler` of rotation/default.go: the level gate, `Handle`'s line
 * layout, and the derivations `WithAttrs` and `WithGroup`. The shared writer
 * and mutex are not part of the record; `Handle` returns the line it would
 * write.
 */
module Handler {
  import opened Wrappers
  import opened Bytes
  import opened Slog
  import opened Quoting
  import opened Encoder
  import opened Flattening

  /**
   * `slog.HandlerOptions`: whether to add the source location, the minimum
   * level (`nil` means Info), and the `ReplaceAttr` hook. `hookDepth` is the
   * model's bound on how deeply groups produced by the hook may nest.
   */
  datatype Options = Options(addSource: bool, level: Option<Level>, replaceAttr: Option<Hook>, hookDepth: nat)

  /**
   * `DefaultHandler`: options, the bytes pre-formatted by `WithAttrs`, the
   * key prefix of the groups already folded into them, every group grouped by
   * `WithGroup`, and how many of those are folded into the prefix.
   */
  datatype Handler = Handler(opts: Options, preformattedAttrs: Bytes, groupPrefix: Bytes, groups: seq<Bytes>, nOpenGroups: nat)

  /** Every handler reachable from `NewDefaultHandler` has folded at most the groups it has. */
  predicate Valid(h: Handler) {
    h.nOpenGroups <= |h.groups|
  }

  /** `NewDefaultHandler`: nothing pre-formatted and no groups. */
  function NewDefaultHandler(opts: Options): (h: Handler)
    ensures Valid(h)
    ensures h.opts == opts && h.preformattedAttrs == [] && h.groupPrefix == [] && h.groups == []
  {
    Handler(opts, [], [], [], 0)
  }

  /** `Enabled`: the level is at least the configured minimum, Info when none is configured. */
  function Enabled(h: Handler, l: Level): (r: bool)
    ensures h.opts.level.None? ==> (r <==> l >= LevelInfo)
    ensures h.opts.level.Some? ==> (r <==> l >= h.opts.level.value)
  {
    var minLevel := if h.opts.level.Some? then h.opts.level.value else LevelInfo;
    l >= minLevel
  }

  /**
   * `clone`: a copy sharing options, writer and mutex. `slices.Clip` makes
   * later appends reallocate, so the copy and the original never share
   * mutable storage; with immutable values the copy is the original.
   */
  function Clone(h: Handler): (c: Handler)
    ensures c == h
  {
    Handler(h.opts, h.preformattedAttrs, h.groupPrefix, h.groups, h.nOpenGroups)
  }

  /** The `source` attribute `Handle` emits, holding the record's location. */
  function SourceAttr(r: Record): Attr {
    Attr(SourceKey, AnyV(SourceRef(r.source)))
  }

  /** Whether `Handle` writes the source location: `AddSource` is set and the level is exactly Debug or Error. */
  predicate WantsSource(h: Handler, r: Record) {
    h.opts.addSource && (r.level == LevelDebug || r.level == LevelError)
  }

  /** The groups not yet folded into `groupPrefix`. */
  function PendingGroups(h: Handler): seq<Bytes>
    requires Valid(h)
  {
    h.groups[h.nOpenGroups..]
  }

  /**
   * `appendNonBuiltIns`: for a record with attributes, the folded group
   * prefix, then the pending groups, then every attribute.
   */
  function AppendNonBuiltIns(lib: Lib, h: Handler, st: State, attrs: seq<Attr>): (r: State)
    requires Valid(h)
    ensures |attrs| == 0 ==> r == st
    ensures |st.buf| <= |r.buf| && r.buf[..|st.buf|] == st.buf
    ensures |attrs| > 0 ==>
      && r.prefix == st.prefix + h.groupPrefix + GroupsPrefix(PendingGroups(h))
      && r.groups == PushAll(st.groups, PendingGroups(h))
  {
    if |attrs| > 0 then
      var grouped := OpenGroups(st.(prefix := st.prefix + h.groupPrefix), PendingGroups(h));
      RenderAttrs(lib, h.opts.replaceAttr, h.opts.hookDepth, grouped, attrs)
    else st
  }

  /**
   * `Handle`: the line for one record. The separator starts as a single
   * space and stays one; the built-ins are rendered with no groups visible
   * to the hook, the record's attributes with all of them.
   */
  function Handle(lib: Lib, h: Handler, r: Record): (line: Bytes)
    requires Valid(h)
    ensures |line| > 0 && line[|line| - 1] == Newline
  {
    var st := BuiltIns(lib, h, r);
    AppendNonBuiltIns(lib, h, st.(groups := Some(h.groups[..h.nOpenGroups])), r.attrs).buf + [Newline]
  }

  /**
   * The state after time, level, source and message. The built-ins are
   * rendered with a nil group list, so even groups the hook makes of the
   * source attribute are not reported to it.
   */
  function BuiltIns(lib: Lib, h: Handler, r: Record): (st: State)
    ensures st.sep == AttrSep && st.prefix == [] && st.groups == None
    ensures LeadText(lib, r) <= st.buf
    ensures var m := StringText(lib, r.message); |m| <= |st.buf| && st.buf[|st.buf| - |m|..] == m
  {
    var st2 := State(LeadText(lib, r), AttrSep, [], None);
    var st3 := if WantsSource(h, r) then SourceStep(lib, h, r, st2) else st2;
    st3.(buf := st3.buf + StringText(lib, r.message))
  }

  /**
   * The built-ins do not depend on the handler's groups or pre-formatted
   * state: two handlers with the same options write the same time, level,
   * source and message for a record, whatever groups either has opened.
   */
  lemma BuiltInsIgnoreGroups(lib: Lib, h: Handler, h': Handler, r: Record)
    requires h'.opts == h.opts
    ensures BuiltIns(lib, h, r) == BuiltIns(lib, h', r)
  {
  }

  /**
   * The first two built-ins: the time unless it is zero, then the level
   * name, each followed by the separator, which is a space from the start.
   */
  function LeadText(lib: Lib, r: Record): Bytes {
    (if IsZeroTime(r.time) then [] else TimeText(r.time) + AttrSep) + StringText(lib, LevelName(r.level)) + AttrSep
  }

  /** The source attribute followed by the separator (`appendAttr` then `appendSep`). */
  function SourceStep(lib: Lib, h: Handler, r: Record, st: State): State {
    var s := RenderAttr(lib, h.opts.replaceAttr, h.opts.hookDepth, st, SourceAttr(r));
    s.(buf := s.buf + s.sep)
  }

  lemma SourceStepLayout(lib: Lib, h: Handler, r: Record, st: State)
    requires WantsSource(h, r) && st.sep == AttrSep && st.prefix == [] && st.groups == None
    ensures SourceStep(lib, h, r, st) == st.(buf := st.buf + SourceField(lib, h, r))
  {
    RenderAttrPrintsLeaves(lib, h.opts.replaceAttr, h.opts.hookDepth, st, SourceAttr(r));
  }

  /** The key prefix the record's attributes are rendered under. */
  function AttrsPrefix(h: Handler): Bytes
    requires Valid(h)
  {
    h.groupPrefix + GroupsPrefix(PendingGroups(h))
  }

  /** The text of the source field, including the separator that follows it. */
  function SourceField(lib: Lib, h: Handler, r: Record): Bytes {
    if WantsSource(h, r) then Print(lib, AttrSep, Flatten(h.opts.replaceAttr, h.opts.hookDepth, [], None, SourceAttr(r))) + AttrSep
    else []
  }

  /** The text of the record's attributes: nothing at all, not even the group prefix, for a record without attributes. */
  function AttrsField(lib: Lib, h: Handler, r: Record): Bytes
    requires Valid(h)
  {
    if |r.attrs| == 0 then []
    else Print(lib, AttrSep, FlattenAll(h.opts.replaceAttr, h.opts.hookDepth, AttrsPrefix(h), Some(h.groups), r.attrs))
  }

  /**
   * The line `Handle` writes: `[time " "] level " " [source-field] msg attrs "\n"`.
   * The pre-formatted attributes appear nowhere in it.
   */
  lemma HandleLayout(lib: Lib, h: Handler, r: Record)
    requires Valid(h)
    ensures Handle(lib, h, r) ==
      (if IsZeroTime(r.time) then [] else TimeText(r.time) + AttrSep)
      + StringText(lib, LevelName(r.level)) + AttrSep
      + SourceField(lib, h, r)
      + StringText(lib, r.message)
      + AttrsField(lib, h, r)
      + [Newline]
  {
    BuiltInsLayout(lib, h, r);
    var st := BuiltIns(lib, h, r);
    NonBuiltInsLayout(lib, h, st.(groups := Some(h.groups[..h.nOpenGroups])), r);
  }

  lemma BuiltInsLayout(lib: Lib, h: Handler, r: Record)
    ensures BuiltIns(lib, h, r) == State(LeadText(lib, r) + SourceField(lib, h, r) + StringText(lib, r.message), AttrSep, [], None)
  {
    var st2 := State(LeadText(lib, r), AttrSep, [], None);
    if WantsSource(h, r) {
      SourceStepLayout(lib, h, r, st2);
    } else {
      assert LeadText(lib, r) + SourceField(lib, h, r) == LeadText(lib, r);
    }
  }

  lemma NonBuiltInsLayout(lib: Lib, h: Handler, st: State, r: Record)
    requires Valid(h) && st.prefix == [] && st.sep == AttrSep && st.groups == Some(h.groups[..h.nOpenGroups])
    ensures AppendNonBuiltIns(lib, h, st, r.attrs).buf == st.buf + AttrsField(lib, h, r)
  {
    if |r.attrs| > 0 {
      assert st.prefix + h.groupPrefix == h.groupPrefix;
      var grouped := OpenGroups(st.(prefix := h.groupPrefix), PendingGroups(h));
      assert h.groups[..h.nOpenGroups] + h.groups[h.nOpenGroups..] == h.groups;
      assert grouped.groups == Some(h.groups);
      RenderAttrsPrintsLeaves(lib, h.opts.replaceAttr, h.opts.hookDepth, grouped, r.attrs);
    } else {
      assert st.buf + [] == st.buf;
    }
  }

  /** Whatever `WithAttrs` pre-formatted, `Handle` writes the same line. */
  lemma HandleIgnoresPreformatted(lib: Lib, h: Handler, r: Record, pre: Bytes)
    requires Valid(h)
    ensures Handle(lib, h.(preformattedAttrs := pre), r) == Handle(lib, h, r)
  {
  }

  /**
   * `WithAttrs`. When every attribute is an empty group (the empty list
   * included) it returns the receiver. Otherwise it renders the attributes
   * after the existing pre-formatted bytes, under the folded prefix plus the
   * pending groups, and folds all groups into the prefix.
   */
  function WithAttrs(lib: Lib, h: Handler, attrs: seq<Attr>): (h2: Handler)
    requires Valid(h)
    ensures Valid(h2)
    ensures CountEmptyGroups(attrs) == |attrs| ==> h2 == h
    ensures CountEmptyGroups(attrs) < |attrs| ==>
      && h2.opts == h.opts && h2.groups == h.groups
      && h2.nOpenGroups == |h.groups|
      && h2.groupPrefix == AttrsPrefix(h)
      && h.preformattedAttrs <= h2.preformattedAttrs
  {
    if CountEmptyGroups(attrs) == |attrs| then h
    else
      var h2 := Clone(h);
      var st0 := State(h2.preformattedAttrs, if |h2.preformattedAttrs| > 0 then AttrSep else [], h.groupPrefix, Some(h2.groups[..h2.nOpenGroups]));
      var st1 := OpenGroups(st0, PendingGroups(h2));
      var st2 := RenderAttrs(lib, h2.opts.replaceAttr, h2.opts.hookDepth, st1, attrs);
      h2.(preformattedAttrs := st2.buf, groupPrefix := st2.prefix, nOpenGroups := |h2.groups|)
  }

  /**
   * What `WithAttrs` appends to the pre-formatted bytes: the printed leaves of
   * the attributes, with a leading space only when bytes were already there.
   */
  lemma WithAttrsPreformats(lib: Lib, h: Handler, attrs: seq<Attr>)
    requires Valid(h) && CountEmptyGroups(attrs) < |attrs|
    ensures WithAttrs(lib, h, attrs).preformattedAttrs == h.preformattedAttrs
      + Print(lib, if |h.preformattedAttrs| > 0 then AttrSep else [],
              FlattenAll(h.opts.replaceAttr, h.opts.hookDepth, AttrsPrefix(h), Some(h.groups), attrs))
  {
    var st0 := State(h.preformattedAttrs, if |h.preformattedAttrs| > 0 then AttrSep else [], h.groupPrefix, Some(h.groups[..h.nOpenGroups]));
    var st1 := OpenGroups(st0, PendingGroups(h));
    assert h.groups[..h.nOpenGroups] + h.groups[h.nOpenGroups..] == h.groups;
    assert st1.groups == Some(h.groups);
    RenderAttrsPrintsLeaves(lib, h.opts.replaceAttr, h.opts.hookDepth, st1, attrs);
  }

  /**
   * Because `Handle` never writes the pre-formatted bytes, and the prefix and
   * group list it renders under are the same before and after, deriving with
   * attributes leaves every line unchanged: the attached attributes vanish.
   */
  lemma WithAttrsInvisible(lib: Lib, h: Handler, attrs: seq<Attr>, r: Record)
    requires Valid(h)
    ensures Handle(lib, WithAttrs(lib, h, attrs), r) == Handle(lib, h, r)
  {
    var h2 := WithAttrs(lib, h, attrs);
    if CountEmptyGroups(attrs) < |attrs| {
      assert PendingGroups(h2) == [];
      assert AttrsPrefix(h2) == AttrsPrefix(h);
      HandleLayout(lib, h, r);
      HandleLayout(lib, h2, r);
    }
  }

  /** `WithGroup`: a copy with exactly one more group name; nothing is rendered. */
  function WithGroup(h: Handler, name: Bytes): (h2: Handler)
    requires Valid(h)
    ensures Valid(h2)
    ensures h2 == h.(groups := h.groups + [name])
  {
    var h2 := Clone(h);
    h2.(groups := h2.groups + [name])
  }

  /** The level filter is a threshold: a handler that takes a level takes every higher one. */
  lemma EnabledMonotone(h: Handler, l: Level, l': Level)
    requires l <= l'
    ensures Enabled(h, l) ==> Enabled(h, l')
  {
  }

  /** A new handler takes exactly the levels at or above the configured minimum, Info when none is configured. */
  lemma NewHandlerEnables(opts: Options, l: Level)
    ensures opts.level.Some? ==> (Enabled(NewDefaultHandler(opts), l) <==> l >= opts.level.value)
    ensures opts.level.None? ==> (Enabled(NewDefaultHandler(opts), l) <==> l >= LevelInfo)
    ensures Enabled(NewDefaultHandler(opts), LevelError) <==> opts.level.None? || opts.level.value <= LevelError
  {
  }

  /** `WithAttrs` and `WithGroup` share the options, so the derived handlers filter levels exactly as `h` does. */
  lemma DerivedEnabled(lib: Lib, h: Handler, attrs: seq<Attr>, name: Bytes, l: Level)
    requires Valid(h)
    ensures Enabled(WithAttrs(lib, h, attrs), l) <==> Enabled(h, l)
    ensures Enabled(WithGroup(h, name), l) <==> Enabled(h, l)
  {
  }

  /** After `WithGroup(name)`, record attributes are keyed one group deeper: `name.` is appended to their prefix. */
  lemma WithGroupNests(h: Handler, name: Bytes)
    requires Valid(h)
    ensures AttrsPrefix(WithGroup(h, name)) == AttrsPrefix(h) + name + [Dot]
    ensures WithGroup(h, name).groups == h.groups + [name]
  {
    var h2 := WithGroup(h, name);
    assert PendingGroups(h2) == PendingGroups(h) + [name];
    assert PendingGroups(h2)[..|PendingGroups(h2)| - 1] == PendingGroups(h);
  }

  /**
   * Without a hook the source field is ` source=file:line ` after the level's
   * own separator, so two spaces precede `source=`: the initial separator is
   * already a space when `appendKey` writes it.
   */
  lemma SourceFieldWithoutHook(lib: Lib, h: Handler, r: Record)
    requires h.opts.replaceAttr.None? && WantsSource(h, r)
    ensures SourceField(lib, h, r) == AttrSep + SourceKey + [Equals] + StringText(lib, SourceText(r.source)) + AttrSep
  {
    SourceFieldLeaf(lib, h, r);
    SourcePrint(lib, SourceText(r.source));
    SourceKeyText(lib);
  }

  lemma SourceFieldLeaf(lib: Lib, h: Handler, r: Record)
    requires h.opts.replaceAttr.None? && WantsSource(h, r)
    ensures SourceField(lib, h, r) == Print(lib, AttrSep, [Leaf(SourceKey, StringV(SourceText(r.source)))]) + AttrSep
  {
    SourceLeaf(h.opts.hookDepth, r);
  }

  lemma SourcePrint(lib: Lib, text: Bytes)
    ensures Print(lib, AttrSep, [Leaf(SourceKey, StringV(text))]) == AttrSep + StringText(lib, SourceKey) + [Equals] + StringText(lib, text)
  {
    assert [Leaf(SourceKey, StringV(text))][1..] == [];
  }

  lemma SourceKeyText(lib: Lib)
    ensures StringText(lib, SourceKey) == SourceKey
  {
    BareText(lib, SourceKey);
  }

  lemma SourceLeaf(fuel: nat, r: Record)
    ensures Flatten(None, fuel, [], None, SourceAttr(r)) == [Leaf(SourceKey, StringV(SourceText(r.source)))]
  {
    assert Prepare(None, None, SourceAttr(r)) == Attr(SourceKey, StringV(SourceText(r.source)));
    assert [] + SourceKey == SourceKey;
  }

  /** Letters, digits and dots: the bytes `needsQuoting` lets through on their own. */
  predicate IsWordByte(b: Byte) {
    b == Dot || 0x61 <= b <= 0x7A || 0x41 <= b <= 0x5A || 0x30 <= b <= 0x39
  }

  /** A non-empty word of such bytes. */
  predicate Bare(s: Bytes) {
    |s| > 0 && forall k | 0 <= k < |s| :: IsWordByte(s[k])
  }

  /** A bare word is written as it is. */
  lemma BareText(lib: Lib, s: Bytes)
    requires Bare(s)
    ensures StringText(lib, s) == s
  {
    AsciiNeedsQuoting(lib.unicode, s);
  }

  /** A dotted key made of bare words is bare. */
  lemma BareKey(g: Bytes, k: Bytes)
    requires Bare(g) && Bare(k)
    ensures Bare(g + [Dot] + k)
  {
    var s := g + [Dot] + k;
    assert forall i | 0 <= i < |s| :: s[i] == if i < |g| then g[i] else if i == |g| then Dot else k[i - |g| - 1];
  }

  /**
   * A record at Info with a zero time, attributes `k1=3`, `k2=v2` and an
   * empty group `k3`, handled inside group `g`, written without a hook or
   * source: the line is `INFO <msg> g.k1=3 g.k2=v2`, the message quoted or
   * not by the usual rule, and the empty group leaves no trace.
   */
  lemma HandleExample(lib: Lib, g: Bytes, k1: Bytes, k2: Bytes, v2: Bytes, k3: Bytes, h: Handler, r: Record)
    requires Bare(g) && Bare(k1) && Bare(k2) && Bare(v2)
    requires h == WithGroup(NewDefaultHandler(Options(false, None, None, 0)), g)
    requires IsZeroTime(r.time) && r.level == LevelInfo
    requires r.attrs == [Attr(k1, Int64V(3)), Attr(k2, StringV(v2)), Attr(k3, GroupV([]))]
    ensures Handle(lib, h, r) == InfoName + AttrSep + StringText(lib, r.message)
      + (AttrSep + (g + [Dot] + k1) + [Equals] + Three + AttrSep + (g + [Dot] + k2) + [Equals] + v2)
      + [Newline]
  {
    ExampleHandler(g, h);
    HandleLayout(lib, h, r);
    ExampleAttrsField(lib, g, k1, k2, v2, k3, h, r);
    InfoText(lib);
    assert SourceField(lib, h, r) == [];
    EmptyEnds(StringText(lib, LevelName(r.level)), AttrSep);
  }

  lemma EmptyEnds(a: Bytes, b: Bytes)
    ensures [] + a + b + [] == a + b
  {
  }

  /** The name of the Info level and the digit `3`. */
  const InfoName: Bytes := Ascii("INFO")
  const Three: Bytes := Ascii("3")

  lemma InfoText(lib: Lib)
    ensures StringText(lib, LevelName(LevelInfo)) == InfoName
  {
    assert LevelName(LevelInfo) == InfoName;
    BareText(lib, InfoName);
  }

  lemma ExampleHandler(g: Bytes, h: Handler)
    requires h == WithGroup(NewDefaultHandler(Options(false, None, None, 0)), g)
    ensures Valid(h) && h.groups == [g] && AttrsPrefix(h) == g + [Dot]
    ensures !h.opts.addSource && h.opts.replaceAttr == None && h.opts.hookDepth == 0
  {
    assert PendingGroups(h) == [g];
    assert GroupsPrefix([g]) == g + [Dot];
  }

  lemma ExampleAttrsField(lib: Lib, g: Bytes, k1: Bytes, k2: Bytes, v2: Bytes, k3: Bytes, h: Handler, r: Record)
    requires Bare(g) && Bare(k1) && Bare(k2) && Bare(v2)
    requires Valid(h) && h.groups == [g] && AttrsPrefix(h) == g + [Dot] && h.opts.replaceAttr == None && h.opts.hookDepth == 0
    requires r.attrs == [Attr(k1, Int64V(3)), Attr(k2, StringV(v2)), Attr(k3, GroupV([]))]
    ensures AttrsField(lib, h, r) == AttrSep + (g + [Dot] + k1) + [Equals] + Three + AttrSep + (g + [Dot] + k2) + [Equals] + v2
  {
    ExampleLeaves(g + [Dot], Some(h.groups), k1, k2, v2, k3);
    BareKey(g, k1);
    BareKey(g, k2);
    ExamplePrint(lib, g + [Dot] + k1, g + [Dot] + k2, v2);
  }

  /** Two keyed leaves; the empty group contributes none. */
  lemma ExampleLeaves(prefix: Bytes, groups: Option<seq<Bytes>>, k1: Bytes, k2: Bytes, v2: Bytes, k3: Bytes)
    requires |k1| > 0 && |k2| > 0
    ensures FlattenAll(None, 0, prefix, groups, [Attr(k1, Int64V(3)), Attr(k2, StringV(v2)), Attr(k3, GroupV([]))])
      == [Leaf(prefix + k1, Int64V(3)), Leaf(prefix + k2, StringV(v2))]
  {
    var a0, a1, a2 := Attr(k1, Int64V(3)), Attr(k2, StringV(v2)), Attr(k3, GroupV([]));
    PlainLeaf(prefix, groups, a0);
    PlainLeaf(prefix, groups, a1);
    EmptyGroupLeaves(prefix, groups, a2);
    FlattenCons(prefix, groups, [a2]);
    FlattenCons(prefix, groups, [a1, a2]);
    FlattenCons(prefix, groups, [a0, a1, a2]);
  }

  /** `FlattenAll` of a non-empty list: the first attribute's leaves, then the rest's. */
  lemma FlattenCons(prefix: Bytes, groups: Option<seq<Bytes>>, attrs: seq<Attr>)
    requires |attrs| > 0
    ensures FlattenAll(None, 0, prefix, groups, attrs)
      == Flatten(None, 0, prefix, groups, attrs[0]) + FlattenAll(None, 0, prefix, groups, attrs[1..])
  {
  }

  /** Without a hook, a keyed value that needs no resolving and is no group is one leaf. */
  lemma PlainLeaf(prefix: Bytes, groups: Option<seq<Bytes>>, a: Attr)
    requires |a.key| > 0 && !a.value.GroupV? && !a.value.LogValuerV? && !IsSourceRef(a.value)
    ensures Flatten(None, 0, prefix, groups, a) == [Leaf(prefix + a.key, a.value)]
  {
    assert Prepare(None, groups, a) == a;
  }

  /** Without a hook, an empty group contributes no leaf. */
  lemma EmptyGroupLeaves(prefix: Bytes, groups: Option<seq<Bytes>>, a: Attr)
    requires a.value == GroupV([])
    ensures Flatten(None, 0, prefix, groups, a) == []
  {
    assert Prepare(None, groups, a) == a;
  }

  lemma ExamplePrint(lib: Lib, key1: Bytes, key2: Bytes, v2: Bytes)
    requires Bare(key1) && Bare(key2) && Bare(v2)
    ensures Print(lib, AttrSep, [Leaf(key1, Int64V(3)), Leaf(key2, StringV(v2))])
      == AttrSep + key1 + [Equals] + Three + AttrSep + key2 + [Equals] + v2
  {
    var l1, l2 := Leaf(key1, Int64V(3)), Leaf(key2, StringV(v2));
    assert [l1, l2][1..] == [l2];
    assert [l2][1..] == [];
    BareText(lib, key1);
    BareText(lib, key2);
    BareText(lib, v2);
    assert ValueText(lib, Int64V(3)) == Three;
    var second := AttrSep + key2 + [Equals] + v2;
    assert Print(lib, AttrSep, [l2]) == second + [];
    assert Print(lib, AttrSep, [l1, l2]) == AttrSep + key1 + [Equals] + Three + second;
  }
}
