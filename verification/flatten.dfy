/**
 * A second, declarative reading of `appendAttr`: an attribute tree first
 * flattens into the list of leaves it contributes, each with its full dotted
 * key, and the text is those leaves printed as `key=value` pairs separated by
 * single spaces. `RenderAttrsPrintsLeaves` proves the stateful renderer
 * computes exactly that.
 */
module Flattening {
  import opened Wrappers
  import opened Bytes
  import opened Slog
  import opened Encoder

  /** One `key=value` pair of the output: the full dotted key and a non-group value. */
  datatype Leaf = Leaf(key: Bytes, value: Value)

  /** The leaves one attribute contributes under key prefix `prefix`, with `groups` open (`None` for a nil list). */
  function Flatten(hook: Option<Hook>, fuel: nat, prefix: Bytes, groups: Option<seq<Bytes>>, a: Attr): (leaves: seq<Leaf>)
    ensures forall i | 0 <= i < |leaves| :: prefix <= leaves[i].key && !leaves[i].value.GroupV?
    decreases fuel, Size(a.value), 0
  {
    var p := Prepare(hook, groups, a);
    if p.key == [] then []
    else if p.value.GroupV? then
      if |p.value.attrs| == 0 || (HookApplies(hook, a) && fuel == 0) then []
      else
        var fuel' := if HookApplies(hook, a) then fuel - 1 else fuel;
        var inner := FlattenAll(hook, fuel', prefix + p.key + [Dot], PushAll(groups, [p.key]), p.value.attrs);
        KeysExtend(prefix, p.key, inner);
        inner
    else [Leaf(prefix + p.key, p.value)]
  }

  /** Keys that start with `prefix + key + "."` start with `prefix`. */
  lemma KeysExtend(prefix: Bytes, key: Bytes, leaves: seq<Leaf>)
    requires forall i | 0 <= i < |leaves| :: prefix + key + [Dot] <= leaves[i].key
    ensures forall i | 0 <= i < |leaves| :: prefix <= leaves[i].key
  {
    forall i | 0 <= i < |leaves|
      ensures prefix <= leaves[i].key
    {
      assert leaves[i].key[..|prefix|] == (prefix + key + [Dot])[..|prefix|];
    }
  }

  /** The leaves of a list of attributes, in order. */
  function FlattenAll(hook: Option<Hook>, fuel: nat, prefix: Bytes, groups: Option<seq<Bytes>>, attrs: seq<Attr>): (leaves: seq<Leaf>)
    ensures forall i | 0 <= i < |leaves| :: prefix <= leaves[i].key && !leaves[i].value.GroupV?
    decreases fuel, SizeAll(attrs), 1
  {
    if |attrs| == 0 then []
    else Flatten(hook, fuel, prefix, groups, attrs[0]) + FlattenAll(hook, fuel, prefix, groups, attrs[1..])
  }

  /** Leaves as text: `sep` before the first pair, a single space before each later one. */
  function Print(lib: Lib, sep: Bytes, leaves: seq<Leaf>): Bytes
    decreases |leaves|
  {
    if |leaves| == 0 then []
    else sep + StringText(lib, leaves[0].key) + [Equals] + ValueText(lib, leaves[0].value) + Print(lib, AttrSep, leaves[1..])
  }

  /** The separator pending after printing `leaves` with initial separator `sep`. */
  function SepAfter(sep: Bytes, leaves: seq<Leaf>): Bytes {
    if |leaves| == 0 then sep else AttrSep
  }

  lemma {:induction false} PrintAppend(lib: Lib, sep: Bytes, l1: seq<Leaf>, l2: seq<Leaf>)
    ensures Print(lib, sep, l1 + l2) == Print(lib, sep, l1) + Print(lib, SepAfter(sep, l1), l2)
    decreases |l1|
  {
    if |l1| > 0 {
      assert (l1 + l2)[1..] == l1[1..] + l2;
      PrintAppend(lib, AttrSep, l1[1..], l2);
    } else {
      assert l1 + l2 == l2;
    }
  }

  /** What rendering `leaves` does to a state. */
  function Printed(lib: Lib, st: State, leaves: seq<Leaf>): State {
    st.(buf := st.buf + Print(lib, st.sep, leaves), sep := SepAfter(st.sep, leaves))
  }

  /** `appendAttr` writes exactly the printed leaves of the attribute. */
  lemma {:induction false} RenderAttrPrintsLeaves(lib: Lib, hook: Option<Hook>, fuel: nat, st: State, a: Attr)
    ensures RenderAttr(lib, hook, fuel, st, a) == Printed(lib, st, Flatten(hook, fuel, st.prefix, st.groups, a))
    decreases fuel, Size(a.value), 1
  {
    var p := Prepare(hook, st.groups, a);
    if p.key != [] && p.value.GroupV? && |p.value.attrs| > 0 && !(HookApplies(hook, a) && fuel == 0) {
      GroupPrintsLeaves(lib, hook, fuel, st, a, p);
    } else if p.key != [] && !p.value.GroupV? {
      LeafPrinted(lib, hook, fuel, st, a, p);
    } else {
      assert Flatten(hook, fuel, st.prefix, st.groups, a) == [];
      assert st.buf + [] == st.buf;
    }
  }

  /** The leaf case of `RenderAttrPrintsLeaves`: one `key=value` pair. */
  lemma LeafPrinted(lib: Lib, hook: Option<Hook>, fuel: nat, st: State, a: Attr, p: Attr)
    requires p == Prepare(hook, st.groups, a) && p.key != [] && !p.value.GroupV?
    ensures RenderAttr(lib, hook, fuel, st, a) == Printed(lib, st, Flatten(hook, fuel, st.prefix, st.groups, a))
  {
    assert Flatten(hook, fuel, st.prefix, st.groups, a) == [Leaf(st.prefix + p.key, p.value)];
    var k := AppendKey(lib, st, p.key);
    assert RenderAttr(lib, hook, fuel, st, a) == k.(buf := k.buf + ValueText(lib, p.value));
    OnePairPrinted(lib, st, p.key, p.value);
  }

  /** Writing one key and its value is printing the single leaf they make. */
  lemma OnePairPrinted(lib: Lib, st: State, key: Bytes, v: Value)
    ensures var k := AppendKey(lib, st, key);
      k.(buf := k.buf + ValueText(lib, v)) == Printed(lib, st, [Leaf(st.prefix + key, v)])
  {
    var leaf := Leaf(st.prefix + key, v);
    PrintOne(lib, st.sep, leaf);
    var keyText, valueText := StringText(lib, st.prefix + key), ValueText(lib, v);
    ConcatAssoc(st.buf, st.sep, keyText, valueText);
    assert SepAfter(st.sep, [leaf]) == AttrSep;
  }

  /** Regrouping the bytes of one `key=value` pair after the buffer. */
  lemma ConcatAssoc(buf: Bytes, sep: Bytes, key: Bytes, value: Bytes)
    ensures buf + sep + key + [Equals] + value == buf + (sep + key + [Equals] + value)
  {
  }

  /** One leaf prints as separator, key, `=` and value. */
  lemma PrintOne(lib: Lib, sep: Bytes, leaf: Leaf)
    ensures Print(lib, sep, [leaf]) == sep + StringText(lib, leaf.key) + [Equals] + ValueText(lib, leaf.value)
  {
    assert [leaf][1..] == [];
  }

  /** The group case of `RenderAttrPrintsLeaves`: open, render the members, close. */
  lemma {:induction false} GroupPrintsLeaves(lib: Lib, hook: Option<Hook>, fuel: nat, st: State, a: Attr, p: Attr)
    requires p == Prepare(hook, st.groups, a)
    requires p.key != [] && p.value.GroupV? && |p.value.attrs| > 0 && !(HookApplies(hook, a) && fuel == 0)
    ensures RenderAttr(lib, hook, fuel, st, a) == Printed(lib, st, Flatten(hook, fuel, st.prefix, st.groups, a))
    decreases fuel, Size(a.value), 0
  {
    var inner := OpenGroup(st, p.key);
    var fuel' := if HookApplies(hook, a) then fuel - 1 else fuel;
    var leaves := FlattenAll(hook, fuel', inner.prefix, inner.groups, p.value.attrs);
    assert Flatten(hook, fuel, st.prefix, st.groups, a) == leaves;
    var done := RenderAttrs(lib, hook, fuel', inner, p.value.attrs);
    assert RenderAttr(lib, hook, fuel, st, a) == CloseGroup(done, p.key);
    RenderAttrsPrintsLeaves(lib, hook, fuel', inner, p.value.attrs);
    CloseAfterOpen(st, p.key);
    CloseGroupPrinted(lib, inner, p.key, leaves);
  }

  /** Closing a group commutes with printing, which only touches buffer and separator. */
  lemma CloseGroupPrinted(lib: Lib, st: State, name: Bytes, leaves: seq<Leaf>)
    requires |name| + 1 <= |st.prefix| && (st.groups.Some? ==> 1 <= |st.groups.value|)
    ensures CloseGroup(Printed(lib, st, leaves), name) == Printed(lib, CloseGroup(st, name), leaves)
  {
  }

  /** `appendAttr` over a list writes exactly the printed leaves of the list. */
  lemma {:induction false} RenderAttrsPrintsLeaves(lib: Lib, hook: Option<Hook>, fuel: nat, st: State, attrs: seq<Attr>)
    ensures RenderAttrs(lib, hook, fuel, st, attrs) == Printed(lib, st, FlattenAll(hook, fuel, st.prefix, st.groups, attrs))
    decreases fuel, SizeAll(attrs), 2
  {
    if |attrs| > 0 {
      var l1 := Flatten(hook, fuel, st.prefix, st.groups, attrs[0]);
      var l2 := FlattenAll(hook, fuel, st.prefix, st.groups, attrs[1..]);
      var mid := RenderAttr(lib, hook, fuel, st, attrs[0]);
      assert RenderAttrs(lib, hook, fuel, st, attrs) == RenderAttrs(lib, hook, fuel, mid, attrs[1..]);
      RenderAttrPrintsLeaves(lib, hook, fuel, st, attrs[0]);
      assert mid == Printed(lib, st, l1);
      RenderAttrsPrintsLeaves(lib, hook, fuel, mid, attrs[1..]);
      assert RenderAttrs(lib, hook, fuel, mid, attrs[1..]) == Printed(lib, mid, l2);
      PrintedAppend(lib, st, l1, l2);
      assert FlattenAll(hook, fuel, st.prefix, st.groups, attrs) == l1 + l2;
    }
  }

  /** Printing two lists of leaves one after the other is printing their concatenation. */
  lemma PrintedAppend(lib: Lib, st: State, l1: seq<Leaf>, l2: seq<Leaf>)
    ensures Printed(lib, Printed(lib, st, l1), l2) == Printed(lib, st, l1 + l2)
  {
    PrintAppend(lib, st.sep, l1, l2);
    var m := Printed(lib, st, l1);
    assert m.buf + Print(lib, m.sep, l2) == st.buf + Print(lib, st.sep, l1 + l2);
    if |l1| == 0 {
      assert l1 + l2 == l2;
    } else {
      assert |l1 + l2| > 0;
    }
  }
}
