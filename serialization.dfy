/** The serialisation traversals derived for every node entry
    (`gen_serialize_node_c`, `gen_serialize_link_c`,
    `gen_serialize_buildstack_c`).

    SET<node> emits a constructor call: the node type and location, one
    value per persisted attribute, one entry per son (a nested node or NULL;
    always NULL for the body of a Fundef and the `Next` chain of a Fundef,
    Typedef or Objdef), and one integer per flag.

    SBT<node> pushes the node on the serialisation stack and descends into
    the same sons that SET writes out, then into `Node`-typed attributes.
    SEL<node> emits a link fix for every non-null `Link` or `CodeLink`
    attribute whose target is on the stack, numbering those attributes
    1, 2, ... per node type, and then descends like SBT. */
module Serialization {
  import opened Schema

  // ---------------------------------------------------------------------
  // SET<node>

  /** SET<node> writes attribute `a`: its type is persisted. */
  predicate Persisted(cat: Catalogue, a: Attr)
    requires Known(cat, a.typeName)
  {
    TypeOf(cat, a.typeName).persist
  }

  function EmitAttrOps(cat: Catalogue, attrs: seq<Attr>): (r: seq<Op>)
    requires forall a :: a in attrs ==> Known(cat, a.typeName)
    ensures |r| <= |attrs|
    ensures forall k :: 0 <= k < |r| ==> r[k].EmitAttr?
  {
    if attrs == [] then []
    else
      var a := attrs[|attrs| - 1];
      EmitAttrOps(cat, attrs[..|attrs| - 1]) + (if Persisted(cat, a) then [EmitAttr(a.name, a.typeName)] else [])
  }

  /** The entry SET<node> writes for son `s`. */
  function SetSonOp(node: string, s: string): (r: Op)
    ensures r == EmitNull(s) || r == EmitSon(s)
  {
    if node == "Fundef" && s == "Body" then EmitNull(s)
    else if s == "Next" && (node == "Fundef" || node == "Typedef" || node == "Objdef") then EmitNull(s)
    else EmitSon(s)
  }

  function SetSonOps(node: string, sons: seq<string>): (r: seq<Op>)
    ensures |r| == |sons|
    ensures forall k :: 0 <= k < |r| ==> r[k] == SetSonOp(node, sons[k])
  {
    if sons == [] then []
    else SetSonOps(node, sons[..|sons| - 1]) + [SetSonOp(node, sons[|sons| - 1])]
  }

  function EmitFlagOps(flags: seq<string>): (r: seq<Op>)
    ensures |r| == |flags|
    ensures forall k :: 0 <= k < |r| ==> r[k] == EmitFlag(flags[k])
  {
    if flags == [] then []
    else EmitFlagOps(flags[..|flags| - 1]) + [EmitFlag(flags[|flags| - 1])]
  }

  /** The body of SET<node>. */
  function SetBody(cat: Catalogue, n: NodeEntry): seq<Op>
    requires Registered(cat, n)
  {
    [EmitHeader(n.name)] + EmitAttrOps(cat, n.attrs) + SetSonOps(n.name, n.sons)
    + EmitFlagOps(n.flags) + [EmitClose, ReturnNode]
  }

  /** gen_serialize_node_c: one SET function per node entry. */
  method GenSerializeNode(cat: Catalogue, nodes: seq<NodeEntry>) returns (out: seq<Fn>)
    requires RegisteredAll(cat, nodes)
    ensures |out| == |nodes|
    ensures forall i :: 0 <= i < |nodes| ==> out[i] == Fn(nodes[i].name, SetBody(cat, nodes[i]))
  {
    out := [];
    for i := 0 to |nodes|
      invariant |out| == i
      invariant forall k :: 0 <= k < i ==> out[k] == Fn(nodes[k].name, SetBody(cat, nodes[k]))
    {
      assert nodes[i] in nodes;
      var body := GenSerializeFunction(cat, nodes[i]);
      out := out + [Fn(nodes[i].name, body)];
    }
  }

  /** The body of the node loop of gen_serialize_node_c: SET<node>. */
  method GenSerializeFunction(cat: Catalogue, n: NodeEntry) returns (body: seq<Op>)
    requires Registered(cat, n)
    ensures body == SetBody(cat, n)
  {
    var attrOps := GenEmitAttrs(cat, n.attrs);
    var sonOps := GenSetSons(n.name, n.sons);
    var flagOps := GenEmitFlags(n.flags);
    body := [EmitHeader(n.name)] + attrOps + sonOps + flagOps + [EmitClose, ReturnNode];
  }

  /** The attribute loop of SET<node>: persisted attributes only. */
  method GenEmitAttrs(cat: Catalogue, attrs: seq<Attr>) returns (ops: seq<Op>)
    requires forall a :: a in attrs ==> Known(cat, a.typeName)
    ensures ops == EmitAttrOps(cat, attrs)
  {
    ops := [];
    for j := 0 to |attrs|
      invariant ops == EmitAttrOps(cat, attrs[..j])
    {
      var a := attrs[j];
      assert attrs[..j + 1][..j] == attrs[..j];
      var atn := Find(cat.types, a.typeName);
      if !atn.value.persist {
        continue;
      }
      ops := ops + [EmitAttr(a.name, atn.value.name)];
    }
    assert attrs[..|attrs|] == attrs;
  }

  /** The son loop of SET<node>. */
  method GenSetSons(node: string, sons: seq<string>) returns (ops: seq<Op>)
    ensures ops == SetSonOps(node, sons)
  {
    ops := [];
    for j := 0 to |sons|
      invariant ops == SetSonOps(node, sons[..j])
    {
      var s := sons[j];
      assert sons[..j + 1][..j] == sons[..j];
      if node == "Fundef" && s == "Body" {
        ops := ops + [EmitNull(s)];
      } else if s == "Next" && (node == "Fundef" || node == "Typedef" || node == "Objdef") {
        ops := ops + [EmitNull(s)];
      } else {
        ops := ops + [EmitSon(s)];
      }
    }
    assert sons[..|sons|] == sons;
  }

  /** The flag loop of SET<node>. */
  method GenEmitFlags(flags: seq<string>) returns (ops: seq<Op>)
    ensures ops == EmitFlagOps(flags)
  {
    ops := [];
    for j := 0 to |flags|
      invariant ops == EmitFlagOps(flags[..j])
    {
      assert flags[..j + 1][..j] == flags[..j];
      ops := ops + [EmitFlag(flags[j])];
    }
    assert flags[..|flags|] == flags;
  }

  // ---------------------------------------------------------------------
  // SEL<node> and SBT<node>

  /** A non-owning reference attribute: its type is `Link` or `CodeLink`. */
  predicate IsLink(a: Attr)
  {
    a.typeName == "Link" || a.typeName == "CodeLink"
  }

  /** How many link attributes `attrs` declares. */
  function LinkCount(attrs: seq<Attr>): nat
  {
    if attrs == [] then 0
    else LinkCount(attrs[..|attrs| - 1]) + (if IsLink(attrs[|attrs| - 1]) then 1 else 0)
  }

  /** The link fixes SEL<node> emits: the k-th link attribute gets slot k. */
  function FixLinkOps(attrs: seq<Attr>): (r: seq<Op>)
    ensures |r| == LinkCount(attrs)
    ensures forall k :: 0 <= k < |r| ==> r[k].FixLink? && r[k].slot == k + 1
  {
    if attrs == [] then []
    else
      var a := attrs[|attrs| - 1];
      FixLinkOps(attrs[..|attrs| - 1])
      + (if IsLink(a) then [FixLink(a.name, LinkCount(attrs[..|attrs| - 1]) + 1)] else [])
  }

  /** SEL<node> does not descend into son `s`. */
  predicate SelSkips(node: string, s: string)
  {
    (node == "Fundef" && (s == "Next" || s == "Body"))
    || (node == "Typedef" && s == "Next")
    || (node == "Objdef" && s == "Next")
  }

  /** The son visits of SEL<node>: every son it does not skip, and only
      those. */
  function SelSonOps(node: string, sons: seq<string>): (r: seq<Op>)
    ensures |r| <= |sons|
    ensures forall k :: 0 <= k < |r| ==> r[k].TravSon? && !SelSkips(node, r[k].son)
    ensures forall s :: TravSon(s) in r <==> s in sons && !SelSkips(node, s)
  {
    if sons == [] then []
    else
      var s := sons[|sons| - 1];
      SelSonOps(node, sons[..|sons| - 1]) + (if SelSkips(node, s) then [] else [TravSon(s)])
  }

  /** SBT<node> does not descend into son `s`. */
  predicate SbtSkips(node: string, s: string)
  {
    (node == "Fundef" && (s == "Next" || s == "Body"))
    || ((node == "Objdef" || node == "Typedef") && s == "Next")
  }

  /** The son visits of SBT<node>: every son it does not skip, and only
      those. */
  function SbtSonOps(node: string, sons: seq<string>): (r: seq<Op>)
    ensures |r| <= |sons|
    ensures forall k :: 0 <= k < |r| ==> r[k].TravSon? && !SbtSkips(node, r[k].son)
    ensures forall s :: TravSon(s) in r <==> s in sons && !SbtSkips(node, s)
  {
    if sons == [] then []
    else
      var s := sons[|sons| - 1];
      SbtSonOps(node, sons[..|sons| - 1]) + (if SbtSkips(node, s) then [] else [TravSon(s)])
  }

  /** The descents into `Node`-typed attributes, shared by SEL and SBT. */
  function NodeAttrOps(attrs: seq<Attr>): (r: seq<Op>)
    ensures |r| <= |attrs|
    ensures forall k :: 0 <= k < |r| ==> r[k].TravAttr?
    ensures forall x :: TravAttr(x) in r <==> exists a :: a in attrs && a.name == x && a.typeName == "Node"
  {
    if attrs == [] then []
    else
      var a := attrs[|attrs| - 1];
      NodeAttrOps(attrs[..|attrs| - 1]) + (if a.typeName == "Node" then [TravAttr(a.name)] else [])
  }

  /** The body of SEL<node>. */
  function SelBody(n: NodeEntry): seq<Op>
  {
    FixLinkOps(n.attrs) + SelSonOps(n.name, n.sons) + NodeAttrOps(n.attrs) + [ReturnNode]
  }

  /** The body of SBT<node>. */
  function SbtBody(n: NodeEntry): seq<Op>
  {
    [Push] + SbtSonOps(n.name, n.sons) + NodeAttrOps(n.attrs) + [ReturnNode]
  }

  /** The loop over `Node`-typed attributes of gen_serialize_link_c and
      gen_serialize_buildstack_c. */
  method GenNodeAttrs(attrs: seq<Attr>) returns (ops: seq<Op>)
    ensures ops == NodeAttrOps(attrs)
  {
    ops := [];
    for j := 0 to |attrs|
      invariant ops == NodeAttrOps(attrs[..j])
    {
      var a := attrs[j];
      assert attrs[..j + 1][..j] == attrs[..j];
      if a.typeName != "Node" {
        continue;
      }
      ops := ops + [TravAttr(a.name)];
    }
    assert attrs[..|attrs|] == attrs;
  }

  /** gen_serialize_link_c: one SEL function per node entry. */
  method GenSerializeLink(nodes: seq<NodeEntry>) returns (out: seq<Fn>)
    ensures |out| == |nodes|
    ensures forall i :: 0 <= i < |nodes| ==> out[i] == Fn(nodes[i].name, SelBody(nodes[i]))
  {
    out := [];
    for i := 0 to |nodes|
      invariant |out| == i
      invariant forall k :: 0 <= k < i ==> out[k] == Fn(nodes[k].name, SelBody(nodes[k]))
    {
      var n := nodes[i];
      var fixes := GenFixLinks(n.attrs);
      var sonOps := GenSelSons(n.name, n.sons);
      var attrOps := GenNodeAttrs(n.attrs);
      out := out + [Fn(n.name, fixes + sonOps + attrOps + [ReturnNode])];
    }
  }

  /** The link loop of SEL<node>: one fix per link attribute, numbered from
      1. */
  method GenFixLinks(attrs: seq<Attr>) returns (fixes: seq<Op>)
    ensures fixes == FixLinkOps(attrs)
  {
    fixes := [];
    var pos := 1;
    for j := 0 to |attrs|
      invariant fixes == FixLinkOps(attrs[..j])
      invariant pos == LinkCount(attrs[..j]) + 1
    {
      var a := attrs[j];
      assert attrs[..j + 1][..j] == attrs[..j];
      if a.typeName != "Link" && a.typeName != "CodeLink" {
        continue;
      }
      fixes := fixes + [FixLink(a.name, pos)];
      pos := pos + 1;
    }
    assert attrs[..|attrs|] == attrs;
  }

  /** The son loop of SEL<node>. */
  method GenSelSons(node: string, sons: seq<string>) returns (ops: seq<Op>)
    ensures ops == SelSonOps(node, sons)
  {
    ops := [];
    for j := 0 to |sons|
      invariant ops == SelSonOps(node, sons[..j])
    {
      var s := sons[j];
      assert sons[..j + 1][..j] == sons[..j];
      if node == "Fundef" && (s == "Next" || s == "Body") {
        continue;
      }
      if node == "Typedef" && s == "Next" {
        continue;
      }
      if node == "Objdef" && s == "Next" {
        continue;
      }
      ops := ops + [TravSon(s)];
    }
    assert sons[..|sons|] == sons;
  }

  /** gen_serialize_buildstack_c: one SBT function per node entry. */
  method GenSerializeBuildstack(nodes: seq<NodeEntry>) returns (out: seq<Fn>)
    ensures |out| == |nodes|
    ensures forall i :: 0 <= i < |nodes| ==> out[i] == Fn(nodes[i].name, SbtBody(nodes[i]))
  {
    out := [];
    for i := 0 to |nodes|
      invariant |out| == i
      invariant forall k :: 0 <= k < i ==> out[k] == Fn(nodes[k].name, SbtBody(nodes[k]))
    {
      var n := nodes[i];
      var sonOps: seq<Op> := [];
      for j := 0 to |n.sons|
        invariant sonOps == SbtSonOps(n.name, n.sons[..j])
      {
        var s := n.sons[j];
        assert n.sons[..j + 1][..j] == n.sons[..j];
        if n.name == "Fundef" && (s == "Next" || s == "Body") {
          continue;
        }
        if (n.name == "Objdef" || n.name == "Typedef") && s == "Next" {
          continue;
        }
        sonOps := sonOps + [TravSon(s)];
      }
      assert n.sons[..|n.sons|] == n.sons;
      var attrOps := GenNodeAttrs(n.attrs);
      out := out + [Fn(n.name, [Push] + sonOps + attrOps + [ReturnNode])];
    }
  }

  // ---------------------------------------------------------------------
  // Properties of each derivation on its own

  lemma {:induction false} EmitAttrOpsMember(cat: Catalogue, attrs: seq<Attr>, x: string, t: string)
    requires forall a :: a in attrs ==> Known(cat, a.typeName)
    ensures EmitAttr(x, t) in EmitAttrOps(cat, attrs) <==> Attr(x, t) in attrs && TypeOf(cat, t).persist
  {
    if attrs != [] {
      var init := attrs[..|attrs| - 1];
      EmitAttrOpsMember(cat, init, x, t);
      assert attrs == init + [attrs[|attrs| - 1]];
    }
  }

  /** The son entries of SET<node>: each son once, as NULL or as itself. */
  lemma SetSonOpsMember(node: string, sons: seq<string>, s: string)
    ensures EmitNull(s) in SetSonOps(node, sons) <==> s in sons && SetSonOp(node, s).EmitNull?
    ensures EmitSon(s) in SetSonOps(node, sons) <==> s in sons && SetSonOp(node, s).EmitSon?
  {
    var r := SetSonOps(node, sons);
    if s in sons {
      var k :| 0 <= k < |sons| && sons[k] == s;
      assert r[k] == SetSonOp(node, s);
    }
  }

  /** An entry of SET<node> is the header, an attribute, son or flag
      entry, or the closing entries. */
  lemma SetBodyMember(cat: Catalogue, n: NodeEntry, op: Op)
    requires Registered(cat, n)
    ensures op in SetBody(cat, n)
            <==> op == EmitHeader(n.name) || op in EmitAttrOps(cat, n.attrs) || op in SetSonOps(n.name, n.sons)
                 || op in EmitFlagOps(n.flags) || op == EmitClose || op == ReturnNode
  {
  }

  lemma SetWritesAttrs(cat: Catalogue, n: NodeEntry, x: string, t: string)
    requires Registered(cat, n)
    ensures EmitAttr(x, t) in SetBody(cat, n) <==> Attr(x, t) in n.attrs && TypeOf(cat, t).persist
  {
    SetBodyMember(cat, n, EmitAttr(x, t));
    EmitAttrOpsMember(cat, n.attrs, x, t);
    assert EmitAttr(x, t) !in SetSonOps(n.name, n.sons) by {
      SetSonOpsMember(n.name, n.sons, x);
    }
  }

  lemma SetWritesSons(cat: Catalogue, n: NodeEntry, s: string)
    requires Registered(cat, n)
    ensures EmitNull(s) in SetBody(cat, n) <==> s in n.sons && SetSonOp(n.name, s).EmitNull?
    ensures EmitSon(s) in SetBody(cat, n) <==> s in n.sons && SetSonOp(n.name, s).EmitSon?
  {
    SetBodyMember(cat, n, EmitNull(s));
    SetBodyMember(cat, n, EmitSon(s));
    SetSonOpsMember(n.name, n.sons, s);
  }

  /** SET<node> writes exactly the persisted attributes, and writes NULL
      without looking at the son exactly for the body of a Fundef and the
      `Next` chain of a Fundef, Typedef or Objdef. */
  lemma SetWrites(cat: Catalogue, n: NodeEntry, x: string, t: string, s: string)
    requires Registered(cat, n)
    ensures EmitAttr(x, t) in SetBody(cat, n) <==> Attr(x, t) in n.attrs && TypeOf(cat, t).persist
    ensures EmitNull(s) in SetBody(cat, n)
            <==> s in n.sons && ((n.name == "Fundef" && s == "Body")
                                 || (s == "Next" && n.name in {"Fundef", "Typedef", "Objdef"}))
    ensures EmitSon(s) in SetBody(cat, n)
            <==> s in n.sons && !((n.name == "Fundef" && s == "Body")
                                  || (s == "Next" && n.name in {"Fundef", "Typedef", "Objdef"}))
  {
    SetWritesAttrs(cat, n, x, t);
    SetWritesSons(cat, n, s);
  }

  /** The `Node` attributes are visited in declaration order: the visits
      for a split declaration are those of its parts, in order. */
  lemma {:induction false} NodeAttrOpsAppend(xs: seq<Attr>, ys: seq<Attr>)
    ensures NodeAttrOps(xs + ys) == NodeAttrOps(xs) + NodeAttrOps(ys)
  {
    if ys == [] {
      assert xs + ys == xs;
    } else {
      var init := ys[..|ys| - 1];
      NodeAttrOpsAppend(xs, init);
      assert (xs + ys)[..|xs + ys| - 1] == xs + init;
    }
  }

  lemma {:induction false} LinkCountAppend(xs: seq<Attr>, ys: seq<Attr>)
    ensures LinkCount(xs + ys) == LinkCount(xs) + LinkCount(ys)
  {
    if ys == [] {
      assert xs + ys == xs;
    } else {
      var init := ys[..|ys| - 1];
      assert (xs + ys)[..|xs + ys| - 1] == xs + init;
      LinkCountAppend(xs, init);
    }
  }

  /** SEL<node> emits one fix per link attribute, in declaration order: the
      fix at index k is for the k-th link attribute of `attrs` and carries
      slot number k + 1. */
  lemma {:induction false} FixLinkOpsAt(attrs: seq<Attr>, j: nat)
    requires j < |attrs| && IsLink(attrs[j])
    ensures LinkCount(attrs[..j]) < |FixLinkOps(attrs)|
    ensures FixLinkOps(attrs)[LinkCount(attrs[..j])] == FixLink(attrs[j].name, LinkCount(attrs[..j]) + 1)
  {
    var init := attrs[..|attrs| - 1];
    if j == |attrs| - 1 {
      assert attrs[..j] == init;
    } else {
      assert init[..j] == attrs[..j];
      FixLinkOpsAt(init, j);
    }
  }

  /** Every fix SEL<node> emits names a link attribute of the node, and the
      slot number it carries is that attribute's rank among the link
      attributes. */
  lemma {:induction false} FixLinkOpsSound(attrs: seq<Attr>, k: nat)
    requires k < |FixLinkOps(attrs)|
    ensures exists j :: 0 <= j < |attrs| && IsLink(attrs[j]) && LinkCount(attrs[..j]) == k
                        && FixLinkOps(attrs)[k] == FixLink(attrs[j].name, k + 1)
  {
    var init := attrs[..|attrs| - 1];
    var last := attrs[|attrs| - 1];
    if k < |FixLinkOps(init)| {
      FixLinkOpsSound(init, k);
      var j :| 0 <= j < |init| && IsLink(init[j]) && LinkCount(init[..j]) == k
               && FixLinkOps(init)[k] == FixLink(init[j].name, k + 1);
      assert init[..j] == attrs[..j];
    } else {
      assert attrs[..|attrs| - 1] == init;
    }
  }

  /** SBT<node> pushes the node before it descends anywhere. */
  lemma SbtPushesFirst(n: NodeEntry)
    ensures SbtBody(n)[0] == Push
    ensures Push !in SbtBody(n)[1..]
    ensures Push !in SelBody(n)
  {
    var sonOps := SbtSonOps(n.name, n.sons);
    var attrOps := NodeAttrOps(n.attrs);
    assert SbtBody(n)[1..] == sonOps + attrOps + [ReturnNode];
    assert Push !in sonOps && Push !in attrOps;
    assert Push !in FixLinkOps(n.attrs) && Push !in SelSonOps(n.name, n.sons);
  }
}
