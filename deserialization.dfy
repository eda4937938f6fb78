/** The de-serialisation helpers derived for every node entry
    (`gen_serialize_helper_c`).

    SHLPmakeNodeVa has one case per node entry: it allocates the combined
    block, binds the son and attribute sub-structures the node has, then
    takes one argument per persisted attribute (setting the others to their
    type's initialiser), one per son and one per flag.

    SHLPfixLink has one case per node entry: a switch on the slot number
    whose k-th case sets the k-th `Link`/`CodeLink` attribute, with a
    default that does nothing. */
module Deserialization {
  import opened Schema
  import opened Serialization

  /** What SHLPmakeNodeVa does for attribute `a`. */
  function MakeAttrOp(cat: Catalogue, a: Attr): Op
    requires Known(cat, a.typeName)
  {
    if !TypeOf(cat, a.typeName).persist then InitAttr(a.name, TypeOf(cat, a.typeName).init)
    else ArgAttr(a.name)
  }

  function MakeAttrOps(cat: Catalogue, attrs: seq<Attr>): (r: seq<Op>)
    requires forall a :: a in attrs ==> Known(cat, a.typeName)
    ensures |r| == |attrs|
    ensures forall k :: 0 <= k < |r| ==> r[k] == MakeAttrOp(cat, attrs[k])
    ensures forall k :: 0 <= k < |r| ==> r[k].ArgAttr? || r[k].InitAttr?
  {
    if attrs == [] then []
    else MakeAttrOps(cat, attrs[..|attrs| - 1]) + [MakeAttrOp(cat, attrs[|attrs| - 1])]
  }

  function ArgSonOps(sons: seq<string>): (r: seq<Op>)
    ensures |r| == |sons|
    ensures forall k :: 0 <= k < |r| ==> r[k] == ArgSon(sons[k])
  {
    if sons == [] then []
    else ArgSonOps(sons[..|sons| - 1]) + [ArgSon(sons[|sons| - 1])]
  }

  function ArgFlagOps(flags: seq<string>): (r: seq<Op>)
    ensures |r| == |flags|
    ensures forall k :: 0 <= k < |r| ==> r[k] == ArgFlag(flags[k])
  {
    if flags == [] then []
    else ArgFlagOps(flags[..|flags| - 1]) + [ArgFlag(flags[|flags| - 1])]
  }

  /** Allocation and the sub-structure bindings of case N_<node>. */
  function MakeHead(n: NodeEntry): seq<Op>
  {
    [Alloc(n.name)]
    + (if |n.sons| != 0 then [BindSons] else [])
    + (if |n.flags| != 0 || |n.attrs| != 0 then [BindAttribs] else [])
  }

  /** Case N_<node> of SHLPmakeNodeVa. */
  function MakeBody(cat: Catalogue, n: NodeEntry): seq<Op>
    requires Registered(cat, n)
  {
    MakeHead(n) + MakeAttrOps(cat, n.attrs) + ArgSonOps(n.sons) + ArgFlagOps(n.flags) + [Break]
  }

  /** The cases of the slot switch: the k-th link attribute under k. */
  function LinkCases(attrs: seq<Attr>): (r: seq<Op>)
    ensures |r| == LinkCount(attrs)
    ensures forall k :: 0 <= k < |r| ==> r[k].SlotCase? && r[k].slot == k + 1
  {
    if attrs == [] then []
    else
      var a := attrs[|attrs| - 1];
      LinkCases(attrs[..|attrs| - 1])
      + (if IsLink(a) then [SlotCase(LinkCount(attrs[..|attrs| - 1]) + 1, a.name)] else [])
  }

  /** Case N_<node> of SHLPfixLink: a slot switch when the node has link
      attributes, then `break`. */
  function FixCaseBody(n: NodeEntry): seq<Op>
  {
    (if LinkCount(n.attrs) > 0 then [SwitchOnSlot] + LinkCases(n.attrs) + [SlotDefault] else [])
    + [Break]
  }

  /** gen_serialize_helper_c: the cases of SHLPmakeNodeVa and of
      SHLPfixLink, one per node entry each. */
  method GenSerializeHelper(cat: Catalogue, nodes: seq<NodeEntry>) returns (make: seq<Fn>, fix: seq<Fn>)
    requires RegisteredAll(cat, nodes)
    ensures |make| == |nodes| && |fix| == |nodes|
    ensures forall i :: 0 <= i < |nodes| ==> make[i] == Fn(nodes[i].name, MakeBody(cat, nodes[i]))
    ensures forall i :: 0 <= i < |nodes| ==> fix[i] == Fn(nodes[i].name, FixCaseBody(nodes[i]))
  {
    make := GenMakeCases(cat, nodes);
    fix := GenFixCases(nodes);
  }

  /** The first node loop of gen_serialize_helper_c (SHLPmakeNodeVa). */
  method GenMakeCases(cat: Catalogue, nodes: seq<NodeEntry>) returns (make: seq<Fn>)
    requires RegisteredAll(cat, nodes)
    ensures |make| == |nodes|
    ensures forall i :: 0 <= i < |nodes| ==> make[i] == Fn(nodes[i].name, MakeBody(cat, nodes[i]))
  {
    make := [];
    for i := 0 to |nodes|
      invariant |make| == i
      invariant forall k :: 0 <= k < i ==> make[k] == Fn(nodes[k].name, MakeBody(cat, nodes[k]))
    {
      assert nodes[i] in nodes;
      var body := GenMakeCase(cat, nodes[i]);
      make := make + [Fn(nodes[i].name, body)];
    }
  }

  /** The second node loop of gen_serialize_helper_c (SHLPfixLink). */
  method GenFixCases(nodes: seq<NodeEntry>) returns (fix: seq<Fn>)
    ensures |fix| == |nodes|
    ensures forall i :: 0 <= i < |nodes| ==> fix[i] == Fn(nodes[i].name, FixCaseBody(nodes[i]))
  {
    fix := [];
    for i := 0 to |nodes|
      invariant |fix| == i
      invariant forall k :: 0 <= k < i ==> fix[k] == Fn(nodes[k].name, FixCaseBody(nodes[k]))
    {
      var body := GenFixCase(nodes[i]);
      fix := fix + [Fn(nodes[i].name, body)];
    }
  }

  /** The body of the first node loop of gen_serialize_helper_c. */
  method GenMakeCase(cat: Catalogue, n: NodeEntry) returns (body: seq<Op>)
    requires Registered(cat, n)
    ensures body == MakeBody(cat, n)
  {
    var head := [Alloc(n.name)];
    if |n.sons| != 0 {
      head := head + [BindSons];
    }
    if |n.flags| != 0 || |n.attrs| != 0 {
      head := head + [BindAttribs];
    }
    assert head == MakeHead(n);
    var attrOps := GenMakeAttrs(cat, n.attrs);
    var sonOps := GenArgSons(n.sons);
    var flagOps := GenArgFlags(n.flags);
    body := head + attrOps + sonOps + flagOps + [Break];
  }

  /** The attribute loop of case N_<node> of SHLPmakeNodeVa. */
  method GenMakeAttrs(cat: Catalogue, attrs: seq<Attr>) returns (ops: seq<Op>)
    requires forall a :: a in attrs ==> Known(cat, a.typeName)
    ensures ops == MakeAttrOps(cat, attrs)
  {
    ops := [];
    for j := 0 to |attrs|
      invariant ops == MakeAttrOps(cat, attrs[..j])
    {
      var a := attrs[j];
      assert MakeAttrOps(cat, attrs[..j + 1]) == ops + [MakeAttrOp(cat, a)] by {
        assert attrs[..j + 1][..j] == attrs[..j];
      }
      var atn := Find(cat.types, a.typeName);
      if !atn.value.persist {
        ops := ops + [InitAttr(a.name, atn.value.init)];
      } else {
        ops := ops + [ArgAttr(a.name)];
      }
    }
    assert attrs[..|attrs|] == attrs;
  }

  /** The son loop of case N_<node> of SHLPmakeNodeVa. */
  method GenArgSons(sons: seq<string>) returns (ops: seq<Op>)
    ensures ops == ArgSonOps(sons)
  {
    ops := [];
    for j := 0 to |sons|
      invariant ops == ArgSonOps(sons[..j])
    {
      assert sons[..j + 1][..j] == sons[..j];
      ops := ops + [ArgSon(sons[j])];
    }
    assert sons[..|sons|] == sons;
  }

  /** The flag loop of case N_<node> of SHLPmakeNodeVa. */
  method GenArgFlags(flags: seq<string>) returns (ops: seq<Op>)
    ensures ops == ArgFlagOps(flags)
  {
    ops := [];
    for j := 0 to |flags|
      invariant ops == ArgFlagOps(flags[..j])
    {
      assert flags[..j + 1][..j] == flags[..j];
      ops := ops + [ArgFlag(flags[j])];
    }
    assert flags[..|flags|] == flags;
  }

  /** The body of the second node loop of gen_serialize_helper_c: the
      switch is opened at the first link attribute and closed with a
      default after the last attribute once a link has been seen. */
  method GenFixCase(n: NodeEntry) returns (body: seq<Op>)
    ensures body == FixCaseBody(n)
  {
    var pos := 1;
    body := [];
    for j := 0 to |n.attrs|
      invariant pos == LinkCount(n.attrs[..j]) + 1
      invariant body == SwitchPrefix(n.attrs[..j]) + (if j == |n.attrs| && pos > 1 then [SlotDefault] else [])
    {
      pos, body := GenFixSlot(n.attrs, j, pos, body);
    }
    assert n.attrs[..|n.attrs|] == n.attrs;
    body := body + [Break];
  }

  /** One round of the attribute loop of GenFixCase: a case for a link
      attribute, preceded by the switch at the first one, and the default
      after the last attribute once a link has been seen. */
  method GenFixSlot(attrs: seq<Attr>, j: nat, pos: nat, body: seq<Op>) returns (pos': nat, body': seq<Op>)
    requires j < |attrs|
    requires pos == LinkCount(attrs[..j]) + 1 && body == SwitchPrefix(attrs[..j])
    ensures pos' == LinkCount(attrs[..j + 1]) + 1
    ensures body' == SwitchPrefix(attrs[..j + 1]) + (if j + 1 == |attrs| && pos' > 1 then [SlotDefault] else [])
  {
    var a := attrs[j];
    pos', body' := pos, body;
    if IsLink(a) {
      if pos' == 1 {
        body' := body' + [SwitchOnSlot];
      }
      body' := body' + [SlotCase(pos', a.name)];
      pos' := pos' + 1;
    }
    assert pos' == LinkCount(attrs[..j + 1]) + 1 && body' == SwitchPrefix(attrs[..j + 1]) by {
      SwitchPrefixAt(attrs, j);
    }
    if j == |attrs| - 1 && pos' > 1 {
      body' := body' + [SlotDefault];
    }
  }

  /** What the slot loop has emitted after the attributes `attrs`: nothing
      until the first link attribute, then the switch and its cases. */
  function SwitchPrefix(attrs: seq<Attr>): seq<Op>
  {
    if LinkCount(attrs) > 0 then [SwitchOnSlot] + LinkCases(attrs) else []
  }

  lemma SwitchPrefixStep(attrs: seq<Attr>)
    requires attrs != []
    ensures var init := attrs[..|attrs| - 1];
            var a := attrs[|attrs| - 1];
            && LinkCount(attrs) == LinkCount(init) + (if IsLink(a) then 1 else 0)
            && SwitchPrefix(attrs)
               == SwitchPrefix(init)
                  + (if IsLink(a) && LinkCount(init) == 0 then [SwitchOnSlot] else [])
                  + (if IsLink(a) then [SlotCase(LinkCount(init) + 1, a.name)] else [])
  {
  }

  /** SwitchPrefixStep at position `j` of a longer list. */
  lemma SwitchPrefixAt(attrs: seq<Attr>, j: nat)
    requires j < |attrs|
    ensures var a := attrs[j];
            && LinkCount(attrs[..j + 1]) == LinkCount(attrs[..j]) + (if IsLink(a) then 1 else 0)
            && SwitchPrefix(attrs[..j + 1])
               == SwitchPrefix(attrs[..j])
                  + (if IsLink(a) && LinkCount(attrs[..j]) == 0 then [SwitchOnSlot] else [])
                  + (if IsLink(a) then [SlotCase(LinkCount(attrs[..j]) + 1, a.name)] else [])
  {
    assert attrs[..j + 1][..j] == attrs[..j];
    SwitchPrefixStep(attrs[..j + 1]);
  }

  // ---------------------------------------------------------------------
  // Properties of each derivation on its own

  /** The k-th case of the slot switch sets the k-th link attribute. */
  lemma {:induction false} LinkCasesAt(attrs: seq<Attr>, j: nat)
    requires j < |attrs| && IsLink(attrs[j])
    ensures LinkCount(attrs[..j]) < |LinkCases(attrs)|
    ensures LinkCases(attrs)[LinkCount(attrs[..j])] == SlotCase(LinkCount(attrs[..j]) + 1, attrs[j].name)
  {
    var init := attrs[..|attrs| - 1];
    if j == |attrs| - 1 {
      assert attrs[..j] == init;
    } else {
      assert init[..j] == attrs[..j];
      LinkCasesAt(init, j);
    }
  }

  /** Every case of the slot switch is for a link attribute, under that
      attribute's rank among the link attributes. */
  lemma {:induction false} LinkCasesSound(attrs: seq<Attr>, k: nat)
    requires k < |LinkCases(attrs)|
    ensures exists j :: 0 <= j < |attrs| && IsLink(attrs[j]) && LinkCount(attrs[..j]) == k
                        && LinkCases(attrs)[k] == SlotCase(k + 1, attrs[j].name)
  {
    var init := attrs[..|attrs| - 1];
    if k < |LinkCases(init)| {
      LinkCasesSound(init, k);
      var j :| 0 <= j < |init| && IsLink(init[j]) && LinkCount(init[..j]) == k
               && LinkCases(init)[k] == SlotCase(k + 1, init[j].name);
      assert init[..j] == attrs[..j];
    } else {
      assert attrs[..|attrs| - 1] == init;
    }
  }

  /** SHLPmakeNodeVa sets every attribute: from an argument when its type
      is persisted, to the type's initialiser otherwise; and it reads every
      son and every flag from an argument, in declaration order. */
  lemma MakeBodySets(cat: Catalogue, n: NodeEntry)
    requires Registered(cat, n)
    ensures var b := MakeBody(cat, n);
            var h := |MakeHead(n)|;
            && |b| == h + |n.attrs| + |n.sons| + |n.flags| + 1
            && (forall k :: 0 <= k < |n.attrs| && Known(cat, n.attrs[k].typeName) && TypeOf(cat, n.attrs[k].typeName).persist
                  ==> b[h + k] == ArgAttr(n.attrs[k].name))
            && (forall k :: 0 <= k < |n.attrs| && Known(cat, n.attrs[k].typeName) && !TypeOf(cat, n.attrs[k].typeName).persist
                  ==> b[h + k] == InitAttr(n.attrs[k].name, TypeOf(cat, n.attrs[k].typeName).init))
            && (forall k :: 0 <= k < |n.sons| ==> b[h + |n.attrs| + k] == ArgSon(n.sons[k]))
            && (forall k :: 0 <= k < |n.flags| ==> b[h + |n.attrs| + |n.sons| + k] == ArgFlag(n.flags[k]))
            && b[|b| - 1] == Break
  {
    MakeBodyAttrs(cat, n);
    MakeBodySons(cat, n);
    MakeBodyFlags(cat, n);
  }

  lemma MakeBodyAttrs(cat: Catalogue, n: NodeEntry)
    requires Registered(cat, n)
    ensures var b := MakeBody(cat, n);
            && |b| == |MakeHead(n)| + |n.attrs| + |n.sons| + |n.flags| + 1
            && forall k :: 0 <= k < |n.attrs| ==> b[|MakeHead(n)| + k] == MakeAttrOp(cat, n.attrs[k])
  {
    var head := MakeHead(n);
    var attrOps := MakeAttrOps(cat, n.attrs);
    var rest := ArgSonOps(n.sons) + ArgFlagOps(n.flags) + [Break];
    assert MakeBody(cat, n) == head + attrOps + rest;
    forall k | 0 <= k < |n.attrs|
      ensures (head + attrOps + rest)[|head| + k] == MakeAttrOp(cat, n.attrs[k])
    {
      PartAt(head, attrOps, rest, k);
    }
  }

  lemma MakeBodySons(cat: Catalogue, n: NodeEntry)
    requires Registered(cat, n)
    ensures var b := MakeBody(cat, n);
            forall k :: 0 <= k < |n.sons| ==> b[|MakeHead(n)| + |n.attrs| + k] == ArgSon(n.sons[k])
  {
    var init := MakeHead(n) + MakeAttrOps(cat, n.attrs);
    var sonOps := ArgSonOps(n.sons);
    var rest := ArgFlagOps(n.flags) + [Break];
    assert MakeBody(cat, n) == init + sonOps + rest;
    forall k | 0 <= k < |n.sons|
      ensures (init + sonOps + rest)[|init| + k] == ArgSon(n.sons[k])
    {
      PartAt(init, sonOps, rest, k);
    }
  }

  lemma MakeBodyFlags(cat: Catalogue, n: NodeEntry)
    requires Registered(cat, n)
    ensures var b := MakeBody(cat, n);
            && b[|b| - 1] == Break
            && forall k :: 0 <= k < |n.flags| ==> b[|MakeHead(n)| + |n.attrs| + |n.sons| + k] == ArgFlag(n.flags[k])
  {
    var init := MakeHead(n) + MakeAttrOps(cat, n.attrs) + ArgSonOps(n.sons);
    var flagOps := ArgFlagOps(n.flags);
    forall k | 0 <= k < |n.flags|
      ensures (init + flagOps + [Break])[|init| + k] == ArgFlag(n.flags[k])
    {
      PartAt(init, flagOps, [Break], k);
    }
  }

  /** Indexing into the middle part of a three-part concatenation. */
  lemma PartAt(xs: seq<Op>, ys: seq<Op>, zs: seq<Op>, k: nat)
    requires k < |ys|
    ensures (xs + ys + zs)[|xs| + k] == ys[k]
  {
  }
}
