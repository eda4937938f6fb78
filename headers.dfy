/** The enumerations, prototype lists and allocation structures derived from
    the schema and the registries (`gen_types_trav_h`,
    `gen_types_nodetype_h`, `gen_node_alloc_h`, `gen_free_node_h`,
    `gen_free_attribs_h`, `gen_serialize_attribs_h`, `gen_check_reset_h`,
    `gen_check_node_h`, `gen_check_h`, `gen_serialize_node_h`,
    `gen_serialize_link_h`, `gen_serialize_buildstack_h`).

    An enumeration is modelled as its list of enumerator names (the value of
    each is its index), a prototype list as the list of declared function
    names. */
module Headers {
  import opened Schema
  import opened Text
  import opened Validator

  // ---------------------------------------------------------------------
  // Enumerations

  /** `trav_t`: TR_undefined, one TR_<traversal> per traversal in lower
      case, then TR_anonymous. */
  function TravEnum(travs: seq<string>): (r: seq<string>)
    ensures |r| == |travs| + 2
    ensures r[0] == "TR_undefined" && r[|r| - 1] == "TR_anonymous"
    ensures forall i :: 0 <= i < |travs| ==> r[i + 1] == "TR_" + ToLower(travs[i])
  {
    ["TR_undefined"] + Prefixed("TR_", travs) + ["TR_anonymous"]
  }

  /** `prefix` glued to each name in lower case. */
  function Prefixed(prefix: string, names: seq<string>): (r: seq<string>)
    ensures |r| == |names|
    ensures forall i :: 0 <= i < |names| ==> r[i] == prefix + ToLower(names[i])
  {
    if names == [] then []
    else Prefixed(prefix, names[..|names| - 1]) + [prefix + ToLower(names[|names| - 1])]
  }

  /** gen_types_trav_h. */
  method GenTypesTrav(travs: seq<string>) returns (items: seq<string>)
    ensures items == TravEnum(travs)
  {
    items := ["TR_undefined"];
    for i := 0 to |travs|
      invariant items == ["TR_undefined"] + Prefixed("TR_", travs[..i])
    {
      assert travs[..i + 1][..i] == travs[..i];
      items := items + ["TR_" + ToLower(travs[i])];
    }
    assert travs[..|travs|] == travs;
    items := items + ["TR_anonymous"];
  }

  /** The enumerators of `trav_t` are pairwise distinct when no two
      traversal names agree in lower case and none is `undefined` or
      `anonymous`. */
  lemma TravEnumDistinct(travs: seq<string>)
    requires forall i, j :: 0 <= i < j < |travs| ==> ToLower(travs[i]) != ToLower(travs[j])
    requires forall i :: 0 <= i < |travs| ==> ToLower(travs[i]) != "undefined" && ToLower(travs[i]) != "anonymous"
    ensures var r := TravEnum(travs);
            forall i, j :: 0 <= i < j < |r| ==> r[i] != r[j]
  {
    var r := TravEnum(travs);
    forall i, j | 0 <= i < j < |r|
      ensures r[i] != r[j]
    {
      TravEnumDistinctAt(travs, i, j);
    }
  }

  lemma TravEnumDistinctAt(travs: seq<string>, i: nat, j: nat)
    requires forall i, j :: 0 <= i < j < |travs| ==> ToLower(travs[i]) != ToLower(travs[j])
    requires forall i :: 0 <= i < |travs| ==> ToLower(travs[i]) != "undefined" && ToLower(travs[i]) != "anonymous"
    requires i < j < |travs| + 2
    ensures TravEnum(travs)[i] != TravEnum(travs)[j]
  {
    var r := TravEnum(travs);
    if i == 0 && j == |r| - 1 {
      assert r[i][3] != r[j][3];
    } else if i == 0 {
      assert "TR_undefined" == "TR_" + "undefined";
      PrefixDiffers("TR_", "undefined", ToLower(travs[j - 1]));
    } else if j == |r| - 1 {
      assert "TR_anonymous" == "TR_" + "anonymous";
      PrefixDiffers("TR_", ToLower(travs[i - 1]), "anonymous");
    } else {
      PrefixDiffers("TR_", ToLower(travs[i - 1]), ToLower(travs[j - 1]));
    }
  }

  /** Different names stay different under a common prefix. */
  lemma PrefixDiffers(prefix: string, x: string, y: string)
    requires x != y
    ensures prefix + x != prefix + y
  {
    assert (prefix + x)[|prefix|..] == x;
    assert (prefix + y)[|prefix|..] == y;
  }

  /** `nodetype`: N_undefined, then one N_<node> per node entry in lower
      case. */
  function NodetypeEnum(nodes: seq<NodeEntry>): (r: seq<string>)
    ensures |r| == |nodes| + 1
    ensures r[0] == "N_undefined"
    ensures forall i :: 0 <= i < |nodes| ==> r[i + 1] == "N_" + ToLower(nodes[i].name)
  {
    if nodes == [] then ["N_undefined"]
    else NodetypeEnum(nodes[..|nodes| - 1]) + ["N_" + ToLower(nodes[|nodes| - 1].name)]
  }

  /** gen_types_nodetype_h: the enumeration and MAX_NODES.  MAX_NODES is the
      number of node entries, which is the value of the last enumerator and
      not one past it. */
  method GenTypesNodetype(nodes: seq<NodeEntry>) returns (items: seq<string>, maxNodes: nat)
    ensures items == NodetypeEnum(nodes)
    ensures maxNodes == |items| - 1
  {
    items := ["N_undefined"];
    for i := 0 to |nodes|
      invariant items == NodetypeEnum(nodes[..i])
    {
      assert nodes[..i + 1][..i] == nodes[..i];
      items := items + ["N_" + ToLower(nodes[i].name)];
    }
    assert nodes[..|nodes|] == nodes;
    maxNodes := |nodes|;
  }

  // ---------------------------------------------------------------------
  // NODE_ALLOC_N_<node>

  /** The members of NODE_ALLOC_N_<node>: the common node structure, the
      son structure when the node has sons, the attribute structure when
      it has attributes or flags. */
  function AllocBody(n: NodeEntry): seq<Op>
  {
    [NodeStructure]
    + (if |n.sons| != 0 then [SonStructure] else [])
    + (if |n.flags| != 0 || |n.attrs| != 0 then [AttribStructure] else [])
  }

  /** gen_node_alloc_h: one structure per node entry. */
  method GenNodeAlloc(nodes: seq<NodeEntry>) returns (out: seq<Fn>)
    ensures |out| == |nodes|
    ensures forall i :: 0 <= i < |nodes| ==> out[i] == Fn(nodes[i].name, AllocBody(nodes[i]))
  {
    out := [];
    for i := 0 to |nodes|
      invariant |out| == i
      invariant forall k :: 0 <= k < i ==> out[k] == Fn(nodes[k].name, AllocBody(nodes[k]))
    {
      var n := nodes[i];
      var body := [NodeStructure];
      if |n.sons| != 0 {
        body := body + [SonStructure];
      }
      if |n.flags| != 0 || |n.attrs| != 0 {
        body := body + [AttribStructure];
      }
      out := out + [Fn(n.name, body)];
    }
  }

  /** NODE_ALLOC_N_<node> starts with the node structure, has a son
      structure exactly when the node has sons and an attribute structure
      exactly when it has attributes or flags, and nothing else. */
  lemma AllocLayout(n: NodeEntry)
    ensures var b := AllocBody(n);
            && b[0] == NodeStructure
            && (SonStructure in b <==> |n.sons| > 0)
            && (AttribStructure in b <==> |n.attrs| > 0 || |n.flags| > 0)
            && |b| == 1 + (if |n.sons| > 0 then 1 else 0) + (if |n.attrs| > 0 || |n.flags| > 0 then 1 else 0)
  {
  }

  // ---------------------------------------------------------------------
  // Prototypes of the per-node functions

  /** gen_free_node_h: FREE<node> for every node entry. */
  method GenFreeNodeH(nodes: seq<NodeEntry>) returns (protos: seq<string>)
    ensures |protos| == |nodes|
    ensures forall i :: 0 <= i < |nodes| ==> protos[i] == "FREE" + ToLower(nodes[i].name)
  {
    protos := [];
    for i := 0 to |nodes|
      invariant |protos| == i
      invariant forall k :: 0 <= k < i ==> protos[k] == "FREE" + ToLower(nodes[k].name)
    {
      protos := protos + ["FREE" + ToLower(nodes[i].name)];
    }
  }

  function NameList(reg: seq<NodeName>): (r: seq<string>)
    ensures |r| == |reg|
    ensures forall i :: 0 <= i < |reg| ==> r[i] == reg[i].name
  {
    if reg == [] then [] else NameList(reg[..|reg| - 1]) + [reg[|reg| - 1].name]
  }

  /** The registry entries that are not node sets (the filter of the CHK,
      SET, SEL and SBT prototypes). */
  function NonSets(reg: seq<NodeName>): (r: seq<NodeName>)
    ensures |r| <= |reg|
    ensures forall k :: 0 <= k < |r| ==> r[k] in reg && r[k].nameType != NntNodeset
  {
    if reg == [] then []
    else
      var x := reg[|reg| - 1];
      NonSets(reg[..|reg| - 1]) + (if x.nameType == NntNodeset then [] else [x])
  }

  /** The registry entries that are nodes (the filter of the CHKM
      prototypes). */
  function NodesOnly(reg: seq<NodeName>): (r: seq<NodeName>)
    ensures |r| <= |reg|
    ensures forall k :: 0 <= k < |r| ==> r[k] in reg && r[k].nameType == NntNode
  {
    if reg == [] then []
    else
      var x := reg[|reg| - 1];
      NodesOnly(reg[..|reg| - 1]) + (if x.nameType != NntNode then [] else [x])
  }

  /** The prototype loop shared by gen_check_h, gen_serialize_node_h,
      gen_serialize_link_h and gen_serialize_buildstack_h, which differ only
      in `prefix` (CHK, SET, SEL, SBT): `prefix`<name> for every registered
      name that is not a node set. */
  method GenNonSetPrototypes(prefix: string, reg: seq<NodeName>) returns (protos: seq<string>)
    ensures protos == Prefixed(prefix, NameList(NonSets(reg)))
  {
    protos := [];
    for i := 0 to |reg|
      invariant protos == Prefixed(prefix, NameList(NonSets(reg[..i])))
    {
      var nn := reg[i];
      NonSetPrototypesStep(prefix, reg, i);
      if nn.nameType == NntNodeset {
        continue;
      }
      protos := protos + [prefix + ToLower(nn.name)];
    }
    assert reg[..|reg|] == reg;
  }

  /** One step of the prototype loop: a further registered name adds its
      prototype unless it is a node set. */
  lemma NonSetPrototypesStep(prefix: string, reg: seq<NodeName>, i: nat)
    requires i < |reg|
    ensures Prefixed(prefix, NameList(NonSets(reg[..i + 1])))
         == Prefixed(prefix, NameList(NonSets(reg[..i])))
            + (if reg[i].nameType == NntNodeset then [] else [prefix + ToLower(reg[i].name)])
  {
    assert reg[..i + 1][..i] == reg[..i];
    var kept := NonSets(reg[..i]);
    if reg[i].nameType != NntNodeset {
      assert NonSets(reg[..i + 1]) == kept + [reg[i]];
      assert (kept + [reg[i]])[..|kept|] == kept;
      var names := NameList(kept);
      assert NameList(kept + [reg[i]]) == names + [reg[i].name];
      assert (names + [reg[i].name])[..|names|] == names;
    }
  }

  /** gen_check_reset_h: the entry point, then CHKRST<name> for every
      registered name. */
  method GenCheckResetH(reg: seq<NodeName>) returns (entry: string, protos: seq<string>)
    ensures entry == "CHKRSTdoTreeCheckReset"
    ensures protos == Prefixed("CHKRST", NameList(reg))
  {
    entry := "CHKRSTdoTreeCheckReset";
    protos := [];
    for i := 0 to |reg|
      invariant protos == Prefixed("CHKRST", NameList(reg[..i]))
    {
      assert reg[..i + 1][..i] == reg[..i];
      protos := protos + ["CHKRST" + ToLower(reg[i].name)];
    }
    assert reg[..|reg|] == reg;
  }

  /** gen_check_node_h: CHKM<name> for every registered node. */
  method GenCheckNodeH(reg: seq<NodeName>) returns (protos: seq<string>)
    ensures protos == Prefixed("CHKM", NameList(NodesOnly(reg)))
  {
    protos := [];
    for i := 0 to |reg|
      invariant protos == Prefixed("CHKM", NameList(NodesOnly(reg[..i])))
    {
      var nn := reg[i];
      assert reg[..i + 1][..i] == reg[..i];
      if nn.nameType != NntNode {
        continue;
      }
      protos := protos + ["CHKM" + ToLower(nn.name)];
    }
    assert reg[..|reg|] == reg;
  }

  /** gen_check_h: the entry point, then CHK<name> for every name that is
      not a node set. */
  method GenCheckH(reg: seq<NodeName>) returns (entry: string, protos: seq<string>)
    ensures entry == "CHKdoTreeCheck"
    ensures protos == Prefixed("CHK", NameList(NonSets(reg)))
  {
    entry := "CHKdoTreeCheck";
    protos := GenNonSetPrototypes("CHK", reg);
  }

  /** A name is kept by the CHK/SET/SEL/SBT filter exactly when it is
      registered and is not a node set. */
  lemma {:induction false} NonSetsMember(reg: seq<NodeName>, x: NodeName)
    ensures x in NonSets(reg) <==> x in reg && x.nameType != NntNodeset
  {
    if reg != [] {
      var init := reg[..|reg| - 1];
      NonSetsMember(init, x);
      assert reg == init + [reg[|reg| - 1]];
    }
  }

  /** With only two kinds of names, "is a node" and "is not a node set" are
      the same filter: the CHKM prototypes are for exactly the names that
      have CHK, SET, SEL and SBT prototypes, in the same order. */
  lemma {:induction false} NodesOnlyIsNonSets(reg: seq<NodeName>)
    ensures NodesOnly(reg) == NonSets(reg)
  {
    if reg != [] {
      NodesOnlyIsNonSets(reg[..|reg| - 1]);
    }
  }

  // ---------------------------------------------------------------------
  // Prototypes of the per-type attribute functions

  /** A prototype of an attribute function: its name and the type of the
      attribute parameter. */
  datatype AttrProto = AttrProto(fn: string, param: string)

  /** FREEattrib<type> takes and returns the type's C type. */
  function FreeAttribProto(t: AttrType): AttrProto
  {
    AttrProto("FREEattrib" + t.name, t.ctype)
  }

  /** SATserialize<type> takes the type's C type, `const`-qualified for the
      `String` type. */
  function SerializeAttribProto(t: AttrType): AttrProto
  {
    AttrProto("SATserialize" + t.name, (if t.name == "String" then "const " else "") + t.ctype)
  }

  function FreeAttribProtos(types: seq<AttrType>): (r: seq<AttrProto>)
    ensures |r| <= |types|
  {
    if types == [] then []
    else
      var t := types[|types| - 1];
      FreeAttribProtos(types[..|types| - 1]) + (if t.copy == Literal then [] else [FreeAttribProto(t)])
  }

  function SerializeAttribProtos(types: seq<AttrType>): (r: seq<AttrProto>)
    ensures |r| <= |types|
  {
    if types == [] then []
    else
      var t := types[|types| - 1];
      SerializeAttribProtos(types[..|types| - 1]) + (if !t.persist then [] else [SerializeAttribProto(t)])
  }

  /** gen_free_attribs_h: FREEattrib<type> for every type not copied
      bitwise. */
  method GenFreeAttribsH(cat: Catalogue) returns (protos: seq<AttrProto>)
    ensures protos == FreeAttribProtos(cat.types)
  {
    var types := cat.types;
    protos := [];
    for i := 0 to |types|
      invariant protos == FreeAttribProtos(types[..i])
    {
      var atn := types[i];
      assert types[..i + 1][..i] == types[..i];
      if atn.copy == Literal {
        continue;
      }
      protos := protos + [AttrProto("FREEattrib" + atn.name, atn.ctype)];
    }
    assert types[..|types|] == types;
  }

  /** gen_serialize_attribs_h: SATserialize<type> for every persisted
      type. */
  method GenSerializeAttribsH(cat: Catalogue) returns (protos: seq<AttrProto>)
    ensures protos == SerializeAttribProtos(cat.types)
  {
    var types := cat.types;
    protos := [];
    for i := 0 to |types|
      invariant protos == SerializeAttribProtos(types[..i])
    {
      var atn := types[i];
      assert types[..i + 1][..i] == types[..i];
      var constQual := "";
      if !atn.persist {
        continue;
      }
      if atn.name == "String" {
        constQual := "const ";
      }
      protos := protos + [AttrProto("SATserialize" + atn.name, constQual + atn.ctype)];
    }
    assert types[..|types|] == types;
  }

  /** A type has a FREEattrib prototype exactly when it is registered and
      not copied bitwise. */
  lemma {:induction false} FreeAttribProtosMember(types: seq<AttrType>, t: AttrType)
    ensures t in types && t.copy != Literal ==> FreeAttribProto(t) in FreeAttribProtos(types)
    ensures forall p :: p in FreeAttribProtos(types) ==> exists u :: u in types && u.copy != Literal && p == FreeAttribProto(u)
  {
    if types != [] {
      var init := types[..|types| - 1];
      FreeAttribProtosMember(init, t);
      assert types == init + [types[|types| - 1]];
    }
  }

  /** A type has a SATserialize prototype exactly when it is registered and
      persisted. */
  lemma {:induction false} SerializeAttribProtosMember(types: seq<AttrType>, t: AttrType)
    ensures t in types && t.persist ==> SerializeAttribProto(t) in SerializeAttribProtos(types)
    ensures forall p :: p in SerializeAttribProtos(types) ==> exists u :: u in types && u.persist && p == SerializeAttribProto(u)
  {
    if types != [] {
      var init := types[..|types| - 1];
      SerializeAttribProtosMember(init, t);
      assert types == init + [types[|types| - 1]];
    }
  }
}
