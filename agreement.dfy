/** How the code derived by different generators for the same node entry
    fits together: the serialiser writes what the constructor reads, SEL
    and SBT walk the tree the same way, the link fixes SEL emits are the
    ones SHLPfixLink understands, the allocation structure matches the
    constructor's bindings, FREE and CHKM descend in the same order, and
    every attribute function a body calls has a prototype. */
module Agreement {
  import opened Schema
  import opened Lifecycle
  import opened Validation
  import opened Serialization
  import opened Deserialization
  import opened Headers

  // ---------------------------------------------------------------------
  // SET<node> writes what SHLPmakeNodeVa reads

  /** A position in the constructor's argument list. */
  datatype Slot = AttrSlot(name: string) | SonSlot(name: string) | FlagSlot(name: string)

  /** The argument slot a SET instruction fills, if any. */
  function WrittenBy(op: Op): seq<Slot>
  {
    match op
    case EmitAttr(a, _) => [AttrSlot(a)]
    case EmitNull(s) => [SonSlot(s)]
    case EmitSon(s) => [SonSlot(s)]
    case EmitFlag(f) => [FlagSlot(f)]
    case _ => []
  }

  /** The argument slot a constructor instruction consumes, if any. */
  function ConsumedBy(op: Op): seq<Slot>
  {
    match op
    case ArgAttr(a) => [AttrSlot(a)]
    case ArgSon(s) => [SonSlot(s)]
    case ArgFlag(f) => [FlagSlot(f)]
    case _ => []
  }

  function Written(ops: seq<Op>): seq<Slot>
  {
    if ops == [] then [] else WrittenBy(ops[0]) + Written(ops[1..])
  }

  function Consumed(ops: seq<Op>): seq<Slot>
  {
    if ops == [] then [] else ConsumedBy(ops[0]) + Consumed(ops[1..])
  }

  /** The reference argument list of node entry `n`: one slot per persisted
      attribute, then one per son, then one per flag, each in declaration
      order. */
  function ArgumentSlots(cat: Catalogue, n: NodeEntry): seq<Slot>
    requires Registered(cat, n)
  {
    PersistedSlots(cat, n.attrs) + SonSlots(n.sons) + FlagSlots(n.flags)
  }

  function PersistedSlots(cat: Catalogue, attrs: seq<Attr>): seq<Slot>
    requires forall a :: a in attrs ==> Known(cat, a.typeName)
  {
    if attrs == [] then []
    else
      var a := attrs[|attrs| - 1];
      PersistedSlots(cat, attrs[..|attrs| - 1]) + (if Persisted(cat, a) then [AttrSlot(a.name)] else [])
  }

  function SonSlots(sons: seq<string>): seq<Slot>
  {
    if sons == [] then [] else SonSlots(sons[..|sons| - 1]) + [SonSlot(sons[|sons| - 1])]
  }

  function FlagSlots(flags: seq<string>): seq<Slot>
  {
    if flags == [] then [] else FlagSlots(flags[..|flags| - 1]) + [FlagSlot(flags[|flags| - 1])]
  }

  lemma WrittenOne(op: Op)
    ensures Written([op]) == WrittenBy(op)
  {
    assert [op][1..] == [];
  }

  lemma ConsumedOne(op: Op)
    ensures Consumed([op]) == ConsumedBy(op)
  {
    assert [op][1..] == [];
  }

  lemma {:induction false} WrittenAppend(xs: seq<Op>, ys: seq<Op>)
    ensures Written(xs + ys) == Written(xs) + Written(ys)
  {
    if xs == [] {
      assert xs + ys == ys;
    } else {
      assert (xs + ys)[1..] == xs[1..] + ys;
      WrittenAppend(xs[1..], ys);
    }
  }

  lemma {:induction false} ConsumedAppend(xs: seq<Op>, ys: seq<Op>)
    ensures Consumed(xs + ys) == Consumed(xs) + Consumed(ys)
  {
    if xs == [] {
      assert xs + ys == ys;
    } else {
      assert (xs + ys)[1..] == xs[1..] + ys;
      ConsumedAppend(xs[1..], ys);
    }
  }

  lemma {:induction false} WrittenAttrs(cat: Catalogue, attrs: seq<Attr>)
    requires forall a :: a in attrs ==> Known(cat, a.typeName)
    ensures Written(EmitAttrOps(cat, attrs)) == PersistedSlots(cat, attrs)
  {
    if attrs != [] {
      var init := attrs[..|attrs| - 1];
      var a := attrs[|attrs| - 1];
      WrittenAttrs(cat, init);
      WrittenAppend(EmitAttrOps(cat, init), if Persisted(cat, a) then [EmitAttr(a.name, a.typeName)] else []);
      WrittenOne(EmitAttr(a.name, a.typeName));
    }
  }

  lemma {:induction false} ConsumedAttrs(cat: Catalogue, attrs: seq<Attr>)
    requires forall a :: a in attrs ==> Known(cat, a.typeName)
    ensures Consumed(MakeAttrOps(cat, attrs)) == PersistedSlots(cat, attrs)
  {
    if attrs != [] {
      var init := attrs[..|attrs| - 1];
      var a := attrs[|attrs| - 1];
      ConsumedAttrs(cat, init);
      ConsumedAppend(MakeAttrOps(cat, init), [MakeAttrOp(cat, a)]);
      ConsumedOne(MakeAttrOp(cat, a));
    }
  }

  lemma {:induction false} WrittenSons(node: string, sons: seq<string>)
    ensures Written(SetSonOps(node, sons)) == SonSlots(sons)
  {
    if sons != [] {
      var init := sons[..|sons| - 1];
      WrittenSons(node, init);
      WrittenAppend(SetSonOps(node, init), [SetSonOp(node, sons[|sons| - 1])]);
      WrittenOne(SetSonOp(node, sons[|sons| - 1]));
    }
  }

  lemma {:induction false} ConsumedSons(sons: seq<string>)
    ensures Consumed(ArgSonOps(sons)) == SonSlots(sons)
  {
    if sons != [] {
      var init := sons[..|sons| - 1];
      ConsumedSons(init);
      ConsumedAppend(ArgSonOps(init), [ArgSon(sons[|sons| - 1])]);
      ConsumedOne(ArgSon(sons[|sons| - 1]));
    }
  }

  lemma {:induction false} WrittenFlags(flags: seq<string>)
    ensures Written(EmitFlagOps(flags)) == FlagSlots(flags)
  {
    if flags != [] {
      var init := flags[..|flags| - 1];
      WrittenFlags(init);
      WrittenAppend(EmitFlagOps(init), [EmitFlag(flags[|flags| - 1])]);
      WrittenOne(EmitFlag(flags[|flags| - 1]));
    }
  }

  lemma {:induction false} ConsumedFlags(flags: seq<string>)
    ensures Consumed(ArgFlagOps(flags)) == FlagSlots(flags)
  {
    if flags != [] {
      var init := flags[..|flags| - 1];
      ConsumedFlags(init);
      ConsumedAppend(ArgFlagOps(init), [ArgFlag(flags[|flags| - 1])]);
      ConsumedOne(ArgFlag(flags[|flags| - 1]));
    }
  }

  /** SET<node> writes the argument list of node entry `n`, slot by slot. */
  lemma SetWritesArguments(cat: Catalogue, n: NodeEntry)
    requires Registered(cat, n)
    ensures Written(SetBody(cat, n)) == ArgumentSlots(cat, n)
  {
    var attrOps := EmitAttrOps(cat, n.attrs);
    var sonOps := SetSonOps(n.name, n.sons);
    var flagOps := EmitFlagOps(n.flags);
    var p1 := [EmitHeader(n.name)] + attrOps;
    var p2 := p1 + sonOps;
    var p3 := p2 + flagOps;
    assert Written(p1) == PersistedSlots(cat, n.attrs) by {
      WrittenOne(EmitHeader(n.name));
      WrittenAttrs(cat, n.attrs);
      WrittenAppend([EmitHeader(n.name)], attrOps);
    }
    assert Written(p2) == Written(p1) + SonSlots(n.sons) by {
      WrittenSons(n.name, n.sons);
      WrittenAppend(p1, sonOps);
    }
    assert Written(p3) == Written(p2) + FlagSlots(n.flags) by {
      WrittenFlags(n.flags);
      WrittenAppend(p2, flagOps);
    }
    assert Written(p3 + [EmitClose, ReturnNode]) == Written(p3) by {
      WrittenAppend(p3, [EmitClose, ReturnNode]);
      CloseWritesNothing();
    }
    assert SetBody(cat, n) == p3 + [EmitClose, ReturnNode];
  }

  lemma CloseWritesNothing()
    ensures Written([EmitClose, ReturnNode]) == []
  {
    assert [EmitClose, ReturnNode][1..] == [ReturnNode];
    WrittenOne(ReturnNode);
  }

  /** Case N_<node> of SHLPmakeNodeVa reads the argument list of node entry
      `n`, slot by slot. */
  lemma MakeReadsArguments(cat: Catalogue, n: NodeEntry)
    requires Registered(cat, n)
    ensures Consumed(MakeBody(cat, n)) == ArgumentSlots(cat, n)
  {
    var head := MakeHead(n);
    var attrOps := MakeAttrOps(cat, n.attrs);
    var sonOps := ArgSonOps(n.sons);
    var flagOps := ArgFlagOps(n.flags);
    var p1 := head + attrOps;
    var p2 := p1 + sonOps;
    var p3 := p2 + flagOps;
    assert Consumed(p1) == PersistedSlots(cat, n.attrs) by {
      MakeHeadConsumesNothing(n);
      ConsumedAttrs(cat, n.attrs);
      ConsumedAppend(head, attrOps);
    }
    assert Consumed(p2) == Consumed(p1) + SonSlots(n.sons) by {
      ConsumedSons(n.sons);
      ConsumedAppend(p1, sonOps);
    }
    assert Consumed(p3) == Consumed(p2) + FlagSlots(n.flags) by {
      ConsumedFlags(n.flags);
      ConsumedAppend(p2, flagOps);
    }
    assert Consumed(p3 + [Break]) == Consumed(p3) by {
      ConsumedAppend(p3, [Break]);
      ConsumedOne(Break);
    }
    assert MakeBody(cat, n) == p3 + [Break];
  }

  lemma MakeHeadConsumesNothing(n: NodeEntry)
    ensures Consumed(MakeHead(n)) == []
  {
    var s: seq<Op> := if |n.sons| != 0 then [BindSons] else [];
    var a: seq<Op> := if |n.flags| != 0 || |n.attrs| != 0 then [BindAttribs] else [];
    ConsumedOne(Alloc(n.name));
    ConsumedOne(BindSons);
    ConsumedOne(BindAttribs);
    ConsumedAppend([Alloc(n.name)], s);
    ConsumedAppend([Alloc(n.name)] + s, a);
  }

  /** What SET<node> writes is exactly what SHLPmakeNodeVa reads back. */
  lemma SetAndMakeAgree(cat: Catalogue, n: NodeEntry)
    requires Registered(cat, n)
    ensures Written(SetBody(cat, n)) == Consumed(MakeBody(cat, n))
  {
    SetWritesArguments(cat, n);
    MakeReadsArguments(cat, n);
  }

  // ---------------------------------------------------------------------
  // SEL<node> and SBT<node> walk the tree alike

  lemma {:induction false} SelSonsAreSbtSons(node: string, sons: seq<string>)
    ensures SelSonOps(node, sons) == SbtSonOps(node, sons)
  {
    if sons != [] {
      SelSonsAreSbtSons(node, sons[..|sons| - 1]);
    }
  }

  /** SBT<node> pushes the node and SEL<node> emits its link fixes; after
      that both descend into the same sons and `Node` attributes in the
      same order. */
  lemma SelAndSbtVisitAlike(n: NodeEntry)
    ensures var sel := SelBody(n);
            var sbt := SbtBody(n);
            && sbt[0] == Push
            && LinkCount(n.attrs) <= |sel|
            && (forall k :: 0 <= k < LinkCount(n.attrs) ==> sel[k].FixLink?)
            && sel[LinkCount(n.attrs)..] == sbt[1..]
            && Descents(sel) == Descents(sbt) == SbtKept(n.name, n.sons)
  {
    SelAndSbtShape(n);
    SelBodyDescents(n);
  }

  lemma SelAndSbtShape(n: NodeEntry)
    ensures var sel := SelBody(n);
            var sbt := SbtBody(n);
            && sbt[0] == Push
            && LinkCount(n.attrs) <= |sel|
            && (forall k :: 0 <= k < LinkCount(n.attrs) ==> sel[k].FixLink?)
            && sel[LinkCount(n.attrs)..] == sbt[1..]
  {
    SelSonsAreSbtSons(n.name, n.sons);
    FixesThenWalk(FixLinkOps(n.attrs), SelSonOps(n.name, n.sons), NodeAttrOps(n.attrs));
  }

  /** A body of link fixes followed by a walk, against the same walk after a
      push. */
  lemma FixesThenWalk(fixes: seq<Op>, sons: seq<Op>, attrs: seq<Op>)
    requires forall k :: 0 <= k < |fixes| ==> fixes[k].FixLink?
    ensures var sel := fixes + sons + attrs + [ReturnNode];
            var sbt := [Push] + sons + attrs + [ReturnNode];
            && sbt[0] == Push
            && |fixes| <= |sel|
            && (forall k :: 0 <= k < |fixes| ==> sel[k].FixLink?)
            && sel[|fixes|..] == sbt[1..]
  {
    var sel := fixes + sons + attrs + [ReturnNode];
    var sbt := [Push] + sons + attrs + [ReturnNode];
    assert sel == fixes + (sons + attrs + [ReturnNode]);
    assert sbt == [Push] + (sons + attrs + [ReturnNode]);
  }

  lemma SelBodyDescents(n: NodeEntry)
    ensures Descents(SelBody(n)) == Descents(SbtBody(n)) == SbtKept(n.name, n.sons)
  {
    SelBodyDescendsLikeSons(n);
    SelSonsAreSbtSons(n.name, n.sons);
    SbtBodyDescents(n);
    SbtSonsInOrder(n.name, n.sons);
  }

  lemma SelBodyDescendsLikeSons(n: NodeEntry)
    ensures Descents(SelBody(n)) == Descents(SelSonOps(n.name, n.sons))
  {
    SelFixesDescendNowhere(n.attrs);
    NodeAttrsDescendNowhere(n.attrs);
    DescentsAfterFixes(FixLinkOps(n.attrs), SelSonOps(n.name, n.sons), NodeAttrOps(n.attrs));
  }

  /** Link fixes and return descend nowhere: a SEL body descends where
      its son visits do. */
  lemma {:induction false} DescentsAfterFixes(fixes: seq<Op>, sons: seq<Op>, attrs: seq<Op>)
    requires Descents(fixes) == [] && Descents(attrs) == []
    ensures Descents(fixes + sons + attrs + [ReturnNode]) == Descents(sons)
  {
    var walk := fixes + sons;
    var body := walk + attrs;
    DescentsAppend(body, [ReturnNode]);
    DescentsOne(ReturnNode);
    assert Descents(body + [ReturnNode]) == Descents(body) + [];
    DescentsAppend(walk, attrs);
    assert Descents(body) == Descents(walk) + [];
    DescentsAppend(fixes, sons);
    assert Descents(walk) == [] + Descents(sons);
  }

  lemma SelFixesDescendNowhere(attrs: seq<Attr>)
    ensures Descents(FixLinkOps(attrs)) == []
  {
    NoDescents(FixLinkOps(attrs));
  }

  /** SET<node> writes NULL without looking at exactly the sons that SBT
      does not push, so no serialised node refers to an unpushed one. */
  lemma SetNullsWhatSbtSkips(node: string, s: string)
    ensures SetSonOp(node, s).EmitNull? <==> SbtSkips(node, s)
    ensures SetSonOp(node, s).EmitNull? <==> SelSkips(node, s)
  {
  }

  // ---------------------------------------------------------------------
  // SEL<node> emits the fixes SHLPfixLink knows

  lemma {:induction false} FixesMatchCases(attrs: seq<Attr>, k: nat)
    requires k < LinkCount(attrs)
    ensures FixLinkOps(attrs)[k].attr == LinkCases(attrs)[k].attr
  {
    var init := attrs[..|attrs| - 1];
    if k < LinkCount(init) {
      FixesMatchCases(init, k);
      assert FixLinkOps(attrs)[k] == FixLinkOps(init)[k];
      assert LinkCases(attrs)[k] == LinkCases(init)[k];
    }
  }

  /** SEL<node> can emit SHLPfixLink (stack, from, k, to) for attribute `x`
      exactly when case N_<node> of SHLPfixLink sets `x` for slot `k`; the
      slots are 1 .. the number of link attributes. */
  lemma SelFixesAreFixLinkCases(n: NodeEntry, x: string, k: nat)
    ensures FixLink(x, k) in SelBody(n) <==> SlotCase(k, x) in FixCaseBody(n)
    ensures FixLink(x, k) in SelBody(n) ==> 1 <= k <= LinkCount(n.attrs)
  {
    SelFixesInFixOps(n, x, k);
    FixCasesInLinkCases(n, x, k);
    var fixes := FixLinkOps(n.attrs);
    var cases := LinkCases(n.attrs);
    if FixLink(x, k) in fixes {
      var i :| 0 <= i < |fixes| && fixes[i] == FixLink(x, k);
      FixesMatchCases(n.attrs, i);
      assert cases[i] == SlotCase(k, x);
    }
    if SlotCase(k, x) in cases {
      var i :| 0 <= i < |cases| && cases[i] == SlotCase(k, x);
      FixesMatchCases(n.attrs, i);
      assert fixes[i] == FixLink(x, k);
    }
  }

  lemma SelFixesInFixOps(n: NodeEntry, x: string, k: nat)
    ensures FixLink(x, k) in SelBody(n) <==> FixLink(x, k) in FixLinkOps(n.attrs)
  {
    var fixes := FixLinkOps(n.attrs);
    var sonOps := SelSonOps(n.name, n.sons);
    var attrOps := NodeAttrOps(n.attrs);
    assert SelBody(n) == fixes + (sonOps + attrOps + [ReturnNode]);
    assert FixLink(x, k) !in sonOps;
    assert FixLink(x, k) !in attrOps;
  }

  lemma FixCasesInLinkCases(n: NodeEntry, x: string, k: nat)
    ensures SlotCase(k, x) in FixCaseBody(n) <==> SlotCase(k, x) in LinkCases(n.attrs)
  {
    var cases := LinkCases(n.attrs);
    if LinkCount(n.attrs) > 0 {
      assert FixCaseBody(n) == [SwitchOnSlot] + cases + [SlotDefault] + [Break];
    } else {
      assert cases == [];
    }
  }

  // ---------------------------------------------------------------------
  // NODE_ALLOC_N_<node> and SHLPmakeNodeVa agree on the layout

  /** The constructor binds the son union member exactly when NODE_ALLOC_N_<node>
      has a son structure, that is when the node has sons, and the
      attribute union member exactly when it has an attribute structure, that is
      when the node has attributes or flags. */
  lemma LayoutAgrees(cat: Catalogue, n: NodeEntry)
    requires Registered(cat, n)
    ensures BindSons in MakeBody(cat, n) <==> SonStructure in AllocBody(n)
    ensures SonStructure in AllocBody(n) <==> |n.sons| > 0
    ensures BindAttribs in MakeBody(cat, n) <==> AttribStructure in AllocBody(n)
    ensures AttribStructure in AllocBody(n) <==> |n.attrs| > 0 || |n.flags| > 0
  {
    var head := MakeHead(n);
    var rest := MakeAttrOps(cat, n.attrs) + ArgSonOps(n.sons) + ArgFlagOps(n.flags) + [Break];
    assert MakeBody(cat, n) == head + rest;
    MakeArgumentsBindNothing(cat, n);
    MakeHeadBinds(n);
    AllocLayout(n);
  }

  lemma MakeHeadBinds(n: NodeEntry)
    ensures BindSons in MakeHead(n) <==> |n.sons| > 0
    ensures BindAttribs in MakeHead(n) <==> |n.attrs| > 0 || |n.flags| > 0
  {
  }

  /** After its head, case N_<node> of SHLPmakeNodeVa binds no
      sub-structure. */
  lemma MakeArgumentsBindNothing(cat: Catalogue, n: NodeEntry)
    requires Registered(cat, n)
    ensures var rest := MakeAttrOps(cat, n.attrs) + ArgSonOps(n.sons) + ArgFlagOps(n.flags) + [Break];
            BindSons !in rest && BindAttribs !in rest
  {
    var attrOps := MakeAttrOps(cat, n.attrs);
    var sonOps := ArgSonOps(n.sons);
    var flagOps := ArgFlagOps(n.flags);
    assert BindSons !in attrOps && BindAttribs !in attrOps;
    assert BindSons !in sonOps && BindAttribs !in sonOps;
    assert BindSons !in flagOps && BindAttribs !in flagOps;
  }

  // ---------------------------------------------------------------------
  // FREE<node>, CHKM<node> and CHKRST<node> descend alike

  /** The sons an instruction descends into. */
  function DescendsInto(op: Op): seq<string>
  {
    match op
    case TravSon(s) => [s]
    case TravNextUnlessStop => ["Next"]
    case _ => []
  }

  function Descents(ops: seq<Op>): seq<string>
  {
    if ops == [] then [] else DescendsInto(ops[0]) + Descents(ops[1..])
  }

  /** The sons in declaration order with `Next` moved to the front. */
  function NextFirst(n: NodeEntry): seq<string>
  {
    (if HasNext(n) then ["Next"] else []) + Without(n.sons, "Next")
  }

  function Without(xs: seq<string>, y: string): (r: seq<string>)
    ensures forall z :: z in r <==> z in xs && z != y
  {
    if xs == [] then []
    else Without(xs[..|xs| - 1], y) + (if xs[|xs| - 1] == y then [] else [xs[|xs| - 1]])
  }

  lemma {:induction false} DescentsAppend(xs: seq<Op>, ys: seq<Op>)
    ensures Descents(xs + ys) == Descents(xs) + Descents(ys)
  {
    if xs == [] {
      assert xs + ys == ys;
    } else {
      assert (xs + ys)[1..] == xs[1..] + ys;
      DescentsAppend(xs[1..], ys);
    }
  }

  lemma DescentsOne(op: Op)
    ensures Descents([op]) == DescendsInto(op)
  {
    assert [op][1..] == [];
  }

  lemma {:induction false} NoDescents(ops: seq<Op>)
    requires forall k :: 0 <= k < |ops| ==> DescendsInto(ops[k]) == []
    ensures Descents(ops) == []
  {
    if ops != [] {
      NoDescents(ops[1..]);
    }
  }

  lemma {:induction false} DescentsExceptNext(sons: seq<string>)
    ensures Descents(TravSonsExceptNext(sons)) == Without(sons, "Next")
  {
    if sons != [] {
      var init := sons[..|sons| - 1];
      var s := sons[|sons| - 1];
      DescentsExceptNext(init);
      DescentsAppend(TravSonsExceptNext(init), if s == "Next" then [] else [TravSon(s)]);
      DescentsOne(TravSon(s));
    }
  }

  lemma {:induction false} DescentsAll(sons: seq<string>)
    ensures Descents(TravSons(sons)) == sons
  {
    if sons != [] {
      var init := sons[..|sons| - 1];
      DescentsAll(init);
      DescentsAppend(TravSons(init), [TravSon(sons[|sons| - 1])]);
      DescentsOne(TravSon(sons[|sons| - 1]));
      assert init + [sons[|sons| - 1]] == sons;
    }
  }

  lemma {:induction false} WithoutAppend(xs: seq<string>, ys: seq<string>, y: string)
    ensures Without(xs + ys, y) == Without(xs, y) + Without(ys, y)
  {
    if ys == [] {
      assert xs + ys == xs;
    } else {
      WithoutAppend(xs, ys[..|ys| - 1], y);
      assert (xs + ys)[..|xs + ys| - 1] == xs + ys[..|ys| - 1];
    }
  }

  lemma WithoutOne(s: string, y: string)
    ensures Without([s], y) == if s == y then [] else [s]
  {
    assert [s][..0] == [];
  }

  /** The sons SBT<node> and SEL<node> descend into, written as an
      independent filter: a `Fundef` keeps out `Next` and `Body`, an
      `Objdef` or `Typedef` keeps out `Next`, any other node keeps all. */
  function SbtKept(node: string, sons: seq<string>): seq<string>
  {
    if node == "Fundef" then Without(Without(sons, "Next"), "Body")
    else if node == "Objdef" || node == "Typedef" then Without(sons, "Next")
    else sons
  }

  lemma SbtKeptOne(node: string, init: seq<string>, s: string)
    ensures SbtKept(node, init + [s])
         == SbtKept(node, init) + (if SbtSkips(node, s) then [] else [s])
  {
    assert (init + [s])[..|init + [s]| - 1] == init;
    if node == "Fundef" {
      var a := Without(init, "Next");
      var b: seq<string> := if s == "Next" then [] else [s];
      assert Without(init + [s], "Next") == a + b;
      WithoutAppend(a, b, "Body");
      if s != "Next" {
        WithoutOne(s, "Body");
      }
    }
  }

  lemma SbtSonOpsSnoc(node: string, init: seq<string>, s: string)
    ensures SbtSonOps(node, init + [s])
         == SbtSonOps(node, init) + (if SbtSkips(node, s) then [] else [TravSon(s)])
  {
    assert (init + [s])[..|init + [s]| - 1] == init;
  }

  lemma DescentsSonOrNothing(node: string, s: string)
    ensures Descents(if SbtSkips(node, s) then [] else [TravSon(s)])
         == (if SbtSkips(node, s) then [] else [s])
  {
    DescentsOne(TravSon(s));
  }

  /** SBT<node> descends into exactly the sons it keeps, each once, in
      declaration order. */
  lemma {:induction false} SbtSonsInOrder(node: string, sons: seq<string>)
    ensures Descents(SbtSonOps(node, sons)) == SbtKept(node, sons)
  {
    if sons != [] {
      var init := sons[..|sons| - 1];
      var s := sons[|sons| - 1];
      var last: seq<Op> := if SbtSkips(node, s) then [] else [TravSon(s)];
      assert sons == init + [s];
      SbtSonsInOrder(node, init);
      SbtSonOpsSnoc(node, init, s);
      DescentsAppend(SbtSonOps(node, init), last);
      DescentsSonOrNothing(node, s);
      SbtKeptOne(node, init, s);
    }
  }

  lemma NodeAttrsDescendNowhere(attrs: seq<Attr>)
    ensures Descents(NodeAttrOps(attrs)) == []
  {
    NoDescents(NodeAttrOps(attrs));
  }

  /** Push and return descend nowhere: a body framed by them descends
      where its middle does. */
  lemma {:induction false} DescentsFramed(sons: seq<Op>, attrs: seq<Op>)
    requires Descents(attrs) == []
    ensures Descents([Push] + sons + attrs + [ReturnNode]) == Descents(sons)
  {
    DescentsAppend([Push] + sons + attrs, [ReturnNode]);
    DescentsAppend([Push] + sons, attrs);
    DescentsAppend([Push], sons);
    DescentsOne(Push);
    DescentsOne(ReturnNode);
  }

  lemma SbtBodyDescents(n: NodeEntry)
    ensures Descents(SbtBody(n)) == SbtKept(n.name, n.sons)
  {
    NodeAttrsDescendNowhere(n.attrs);
    DescentsFramed(SbtSonOps(n.name, n.sons), NodeAttrOps(n.attrs));
    SbtSonsInOrder(n.name, n.sons);
  }

  lemma SbtBodyAttrs(n: NodeEntry, x: string)
    ensures TravAttr(x) in SbtBody(n)
        <==> exists a :: a in n.attrs && a.name == x && a.typeName == "Node"
  {
    var sons := SbtSonOps(n.name, n.sons);
    var attrs := NodeAttrOps(n.attrs);
    assert SbtBody(n) == [Push] + sons + attrs + [ReturnNode];
    assert TravAttr(x) !in sons;
  }

  lemma SbtBodySonsFirst(n: NodeEntry, i: int, j: int)
    requires 0 <= i < |SbtBody(n)| && 0 <= j < |SbtBody(n)|
    requires SbtBody(n)[i].TravSon? && SbtBody(n)[j].TravAttr?
    ensures i < j
  {
    var sons := SbtSonOps(n.name, n.sons);
    var attrs := NodeAttrOps(n.attrs);
    var body := [Push] + sons + attrs + [ReturnNode];
    assert SbtBody(n) == body;
    assert i <= |sons|;
    assert j > |sons|;
  }

  /** The walk of SBT<node>: it descends into the kept sons in declaration
      order, then into every `Node` attribute and nothing else, and every
      son visit comes before every attribute visit. */
  lemma SbtBodyVisits(n: NodeEntry)
    ensures Descents(SbtBody(n)) == SbtKept(n.name, n.sons)
    ensures forall x :: TravAttr(x) in SbtBody(n)
              <==> exists a :: a in n.attrs && a.name == x && a.typeName == "Node"
    ensures forall i, j :: (0 <= i < |SbtBody(n)| && 0 <= j < |SbtBody(n)|
              && SbtBody(n)[i].TravSon? && SbtBody(n)[j].TravAttr?) ==> i < j
  {
    SbtBodyDescents(n);
    forall x {
      SbtBodyAttrs(n, x);
    }
    forall i, j | 0 <= i < |SbtBody(n)| && 0 <= j < |SbtBody(n)|
                  && SbtBody(n)[i].TravSon? && SbtBody(n)[j].TravAttr?
      ensures i < j
    {
      SbtBodySonsFirst(n, i, j);
    }
  }

  lemma FreeHeadDescents(n: NodeEntry)
    ensures Descents(FreeHead(n)) == (if HasNext(n) then ["Next"] else [])
  {
    var z: seq<Op> := if n.name == "Fundef" then [Zombify] else [];
    var t: seq<Op> := if HasNext(n) then [TravNextUnlessStop] else [];
    NoDescents(z + [TravError]);
    DescentsAppend(z + [TravError], t);
    DescentsOne(TravNextUnlessStop);
  }

  lemma CheckHeadDescents(n: NodeEntry)
    ensures Descents(CheckHead(n)) == (if HasNext(n) then ["Next"] else [])
  {
    var t: seq<Op> := if HasNext(n) then [TravSon("Next")] else [];
    NoDescents([Touch, TravError]);
    DescentsAppend([Touch, TravError], t);
    DescentsOne(TravSon("Next"));
  }

  /** FREE<node> descends into `Next` first and then into the other sons in
      declaration order. */
  lemma FreeDescents(cat: Catalogue, n: NodeEntry)
    requires Registered(cat, n)
    ensures Descents(FreeBody(cat, n)) == NextFirst(n)
  {
    var head := FreeHead(n);
    var attrOps := FreeAttrOps(cat, n.name, n.attrs);
    var sonOps := TravSonsExceptNext(n.sons);
    var tail := FreeTail(n);
    var p1 := head + attrOps;
    var p2 := p1 + sonOps;
    assert Descents(p1) == Descents(head) by {
      NoDescents(attrOps);
      DescentsAppend(head, attrOps);
    }
    assert Descents(p2) == Descents(p1) + Without(n.sons, "Next") by {
      DescentsExceptNext(n.sons);
      DescentsAppend(p1, sonOps);
    }
    assert Descents(p2 + tail) == Descents(p2) by {
      NoDescents(tail);
      DescentsAppend(p2, tail);
    }
    FreeHeadDescents(n);
    assert FreeBody(cat, n) == p2 + tail;
  }

  /** CHKM<node> descends into `Next` first and then into the other sons in
      declaration order. */
  lemma CheckDescents(cat: Catalogue, n: NodeEntry)
    requires Registered(cat, n)
    ensures Descents(CheckBody(cat, n)) == NextFirst(n)
  {
    var head := CheckHead(n);
    var touches := TouchAttrOps(cat, n.attrs);
    var sonOps := TravSonsExceptNext(n.sons);
    var p1 := head + touches;
    var p2 := p1 + sonOps;
    assert Descents(p1) == Descents(head) by {
      NoDescents(touches);
      DescentsAppend(head, touches);
    }
    assert Descents(p2) == Descents(p1) + Without(n.sons, "Next") by {
      DescentsExceptNext(n.sons);
      DescentsAppend(p1, sonOps);
    }
    assert Descents(p2 + [ReturnNode]) == Descents(p2) by {
      DescentsOne(ReturnNode);
      DescentsAppend(p2, [ReturnNode]);
    }
    CheckHeadDescents(n);
    assert CheckBody(cat, n) == p2 + [ReturnNode];
  }

  /** CHKRST<node> descends into every son in declaration order, which is
      the order of FREE and CHKM up to where `Next` comes. */
  lemma ResetDescents(n: NodeEntry)
    ensures Descents(ResetBody(n)) == n.sons
    ensures forall s :: s in n.sons <==> s in NextFirst(n)
  {
    var walk := [ClearVisited] + TravSons(n.sons);
    DescentsAll(n.sons);
    DescentsOne(ClearVisited);
    DescentsOne(ReturnNode);
    DescentsAppend([ClearVisited], TravSons(n.sons));
    assert Descents(walk) == [] + n.sons;
    DescentsAppend(walk, [ReturnNode]);
    assert Descents(walk + [ReturnNode]) == n.sons + [];
    assert ResetBody(n) == walk + [ReturnNode];
    forall s
      ensures s in n.sons <==> s in NextFirst(n)
    {
      assert s in Without(n.sons, "Next") <==> s in n.sons && s != "Next";
    }
  }

  // ---------------------------------------------------------------------
  // The attribute functions a body calls have prototypes

  /** Every FREEattrib<type> that FREE<node> calls is declared by
      gen_free_attribs_h. */
  lemma FreeCallsAreDeclared(cat: Catalogue, n: NodeEntry, x: string, t: string)
    requires Registered(cat, n)
    requires FreeAttr(x, t) in FreeBody(cat, n)
    ensures Known(cat, t)
    ensures FreeAttribProto(TypeOf(cat, t)) in FreeAttribProtos(cat.types)
    ensures FreeAttribProto(TypeOf(cat, t)).fn == "FREEattrib" + t
  {
    FreeBodyAttrs(cat, n, x, t);
    FreeAttribProtosMember(cat.types, TypeOf(cat, t));
  }

  /** Every SATserialize<type> that SET<node> calls is declared by
      gen_serialize_attribs_h. */
  lemma SetCallsAreDeclared(cat: Catalogue, n: NodeEntry, x: string, t: string)
    requires Registered(cat, n)
    requires EmitAttr(x, t) in SetBody(cat, n)
    ensures Known(cat, t)
    ensures SerializeAttribProto(TypeOf(cat, t)) in SerializeAttribProtos(cat.types)
    ensures SerializeAttribProto(TypeOf(cat, t)).fn == "SATserialize" + t
  {
    SetWrites(cat, n, x, t, "");
    SerializeAttribProtosMember(cat.types, TypeOf(cat, t));
  }
}
