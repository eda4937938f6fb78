/** The schema the generators read, and the abstract instructions the generated
    C functions are made of.

    A schema is an ordered sequence of node entries (name, attributes with their
    type names, sons, flags, each in declaration order) and a registry of
    attribute types.  Each generator turns one node entry into one function
    body, which is modelled as a sequence of `Op`s instead of C text. */
module Schema {

  datatype Option<+T> = None | Some(value: T)

  /** How values of an attribute type are released and copied: bitwise
      (`act_literal`), by a type-specific function (`act_function`), or as an
      owned node. */
  datatype CopyKind = Literal | Function | NodeCopy

  /** A registered attribute type, with the fields gen.c reads from it:
      the C type, the optional `va_arg` type, the copy kind, whether values
      are persisted by the serialiser, and the initialiser used otherwise. */
  datatype AttrType = AttrType(name: string, ctype: string, vtype: Option<string>,
                               copy: CopyKind, persist: bool, init: string)

  /** An attribute of a node entry: its name and the name of its type. */
  datatype Attr = Attr(name: string, typeName: string)

  /** A node entry of the schema. */
  datatype NodeEntry = NodeEntry(name: string, attrs: seq<Attr>, sons: seq<string>, flags: seq<string>)

  /** The attribute-type registry in its iteration order. */
  datatype Catalogue = Catalogue(types: seq<AttrType>)

  /** Registry lookup by name (`HASH_FIND_STR`): the first entry so named. */
  function Find(types: seq<AttrType>, name: string): (r: Option<AttrType>)
    ensures r.Some? ==> r.value in types && r.value.name == name
    ensures r.None? <==> forall t :: t in types ==> t.name != name
  {
    if types == [] then None
    else if types[0].name == name then Some(types[0])
    else Find(types[1..], name)
  }

  predicate Known(cat: Catalogue, typeName: string)
  {
    Find(cat.types, typeName).Some?
  }

  function TypeOf(cat: Catalogue, typeName: string): AttrType
    requires Known(cat, typeName)
  {
    Find(cat.types, typeName).value
  }

  /** Every attribute of `n` names a registered type (gen.c asserts this at
      each lookup). */
  predicate Registered(cat: Catalogue, n: NodeEntry)
  {
    forall a :: a in n.attrs ==> Known(cat, a.typeName)
  }

  predicate RegisteredAll(cat: Catalogue, nodes: seq<NodeEntry>)
  {
    forall n :: n in nodes ==> Registered(cat, n)
  }

  /** The node has a son called `Next` (a sibling chain). */
  predicate HasNext(n: NodeEntry)
  {
    "Next" in n.sons
  }

  /** The abstract instructions of the generated functions. */
  datatype Op =
    // FREE<node>
    | Zombify                     // arg_node = FREEzombify (arg_node)
    | TravError                   // NODE_ERROR = TRAV (NODE_ERROR) when non-null
    | TravNextUnlessStop          // NEXT = FREECOND (NEXT): skipped at the stop marker
    | FreeAttr(attr: string, typeName: string)  // attr = FREEattrib<type> (attr)
    | KeepNext                    // result = NEXT
    | MemFree                     // arg_node = MEMfree (arg_node)
    | ReturnResult                // return result
    // shared by several generators
    | TravSon(son: string)        // son = TRAVdo (son) when non-null
    | ReturnNode                  // return arg_node
    // CHKRST<node> and CHKRSTdoTreeCheckReset
    | ClearVisited                // NODE_CHECKVISITED = FALSE
    | DetachFundefNext            // keep_next = FUNDEF_NEXT; FUNDEF_NEXT = NULL (Fundef only)
    | TravRoot                    // TRAVdo with the reset traversal
    | RestoreFundefNext           // FUNDEF_NEXT = keep_next (Fundef only)
    // CHKM<node>
    | Touch                       // CHKMtouch (arg_node)
    | TouchAttr(attr: string)     // CHKMtouch (attr)
    // SET<node>
    | EmitHeader(node: string)    // node type tag and source location
    | EmitAttr(attr: string, typeName: string)  // SATserialize<type> (attr)
    | EmitNull(son: string)       // a NULL that does not look at the son
    | EmitSon(son: string)        // NULL, or the nested node when non-null
    | EmitFlag(flag: string)      // the flag as an integer
    | EmitClose
    // SEL<node> and SBT<node>
    | FixLink(attr: string, slot: nat)  // emit SHLPfixLink (stack, from, slot, to) when found
    | TravAttr(attr: string)      // traverse a `Node`-typed attribute when non-null
    | Push                        // SSpush (arg_node)
    // SHLPmakeNodeVa, case N_<node>
    | Alloc(node: string)         // allocate NODE_ALLOC_N_<node>, set type and location
    | BindSons                    // point the sons union at the son sub-structure
    | BindAttribs                 // point the attribs union at the attribute sub-structure
    | ArgAttr(attr: string)       // attr = va_arg (args)
    | InitAttr(attr: string, init: string)  // attr = its type's initialiser
    | ArgSon(son: string)         // son = va_arg (args, node *)
    | ArgFlag(flag: string)       // flag = va_arg (args, int)
    | Break
    // SHLPfixLink, case N_<node>
    | SwitchOnSlot                // switch (no)
    | SlotCase(slot: nat, attr: string)  // case slot: attr = top; break
    | SlotDefault                 // default: break
    // NODE_ALLOC_N_<node>
    | NodeStructure
    | SonStructure
    | AttribStructure

  /** One generated function (or structure): the node it is for and its body. */
  datatype Fn = Fn(node: string, body: seq<Op>)

  /** One traversal per son except `Next`, in declaration order (the son loop
      of FREE<node> and CHKM<node>, which handle `Next` earlier). */
  function TravSonsExceptNext(sons: seq<string>): (r: seq<Op>)
    ensures |r| <= |sons|
    ensures forall k :: 0 <= k < |r| ==> r[k].TravSon? && r[k].son != "Next" && r[k].son in sons
  {
    if sons == [] then []
    else
      var s := sons[|sons| - 1];
      TravSonsExceptNext(sons[..|sons| - 1]) + (if s == "Next" then [] else [TravSon(s)])
  }

  /** One traversal per son, `Next` included, in declaration order. */
  function TravSons(sons: seq<string>): (r: seq<Op>)
    ensures |r| == |sons|
    ensures forall k :: 0 <= k < |r| ==> r[k] == TravSon(sons[k])
  {
    if sons == [] then []
    else TravSons(sons[..|sons| - 1]) + [TravSon(sons[|sons| - 1])]
  }

  lemma {:induction false} TravSonsExceptNextMember(sons: seq<string>, s: string)
    ensures TravSon(s) in TravSonsExceptNext(sons) <==> s in sons && s != "Next"
  {
    if sons != [] {
      var init := sons[..|sons| - 1];
      TravSonsExceptNextMember(init, s);
      assert sons == init + [sons[|sons| - 1]];
    }
  }

  /** The son loop of gen_free_node_c and gen_check_node_c. */
  method GenTravSonsExceptNext(sons: seq<string>) returns (ops: seq<Op>)
    ensures ops == TravSonsExceptNext(sons)
  {
    ops := [];
    for j := 0 to |sons|
      invariant ops == TravSonsExceptNext(sons[..j])
    {
      var s := sons[j];
      assert sons[..j + 1][..j] == sons[..j];
      if s == "Next" {
        continue;
      }
      ops := ops + [TravSon(s)];
    }
    assert sons[..|sons|] == sons;
  }
}
