/** What the derived code does when it runs, for the two pieces whose
    meaning spans generators: SHLPfixLink applied to the serialisation
    stack, and SHLPmakeNodeVa applied to the argument list SET<node>
    writes. */
module Runtime {
  import opened Schema
  import opened Serialization
  import opened Deserialization
  import opened Agreement
  import opened Validation

  // ---------------------------------------------------------------------
  // SHLPfixLink

  /** SERSTACK_NOT_FOUND. */
  const NotFound: int := -1

  /** A node reference: NULL or the node at a stack position. */
  datatype Ref = Null | At(pos: nat)

  /** A node on the serialisation stack: its type and its link attributes. */
  datatype StackNode = StackNode(ty: string, links: map<string, Ref>)

  /** The effect of SHLPfixLink: the new stack, or the unreachable branch
      for a node type that has no case. */
  datatype FixOutcome = Fixed(stack: seq<StackNode>) | InvalidNodeType

  /** The first case of the node-type switch for type `ty`. */
  function CaseFor(cases: seq<Fn>, ty: string): (r: Option<seq<Op>>)
    ensures r.None? <==> forall i :: 0 <= i < |cases| ==> cases[i].node != ty
  {
    if cases == [] then None
    else if cases[0].node == ty then Some(cases[0].body)
    else CaseFor(cases[1..], ty)
  }

  /** The attribute the slot switch of a case body sets for slot `no`, if
      any case matches. */
  function SlotTarget(body: seq<Op>, no: int): Option<string>
  {
    if body == [] then None
    else if body[0].SlotCase? && body[0].slot == no then Some(body[0].attr)
    else SlotTarget(body[1..], no)
  }

  /** SHLPfixLink (stack, from, no, to) over the cases `cases` derived for
      the node entries.  Positions other than SERSTACK_NOT_FOUND are
      positions on the stack. */
  function FixLinkRun(cases: seq<Fn>, stack: seq<StackNode>, from: int, no: int, to: int): (r: FixOutcome)
    requires from == NotFound || 0 <= from < |stack|
    requires to == NotFound || 0 <= to < |stack|
    ensures from == NotFound ==> r == Fixed(stack)
    ensures r.Fixed? ==> |r.stack| == |stack|
                         && forall p :: 0 <= p < |stack| && p != from ==> r.stack[p] == stack[p]
    ensures r.Fixed? && 0 <= from ==> r.stack[from].ty == stack[from].ty
  {
    if from == NotFound then Fixed(stack)
    else
      var fromp := stack[from];
      var top := if to != NotFound then At(to) else Null;
      match CaseFor(cases, fromp.ty)
      case None => InvalidNodeType
      case Some(body) =>
        match SlotTarget(body, no)
        case None => Fixed(stack)
        case Some(a) => Fixed(stack[from := fromp.(links := fromp.links[a := top])])
  }

  /** `cases` is what gen_serialize_helper_c derives for `nodes`. */
  predicate FixTable(nodes: seq<NodeEntry>, cases: seq<Fn>)
  {
    |cases| == |nodes| && forall i :: 0 <= i < |nodes| ==> cases[i] == Fn(nodes[i].name, FixCaseBody(nodes[i]))
  }

  lemma {:induction false} CaseForFirst(cases: seq<Fn>, i: nat)
    requires i < |cases|
    requires forall j :: 0 <= j < i ==> cases[j].node != cases[i].node
    ensures CaseFor(cases, cases[i].node) == Some(cases[i].body)
  {
    if i > 0 {
      assert cases[1..][i - 1] == cases[i];
      CaseForFirst(cases[1..], i - 1);
    }
  }

  lemma {:induction false} SlotTargetFinds(body: seq<Op>, no: nat, a: string)
    requires SlotCase(no, a) in body
    requires forall k :: 0 <= k < |body| && body[k].SlotCase? && body[k].slot == no ==> body[k].attr == a
    ensures SlotTarget(body, no) == Some(a)
  {
    if body[0] != SlotCase(no, a) {
      assert SlotCase(no, a) in body[1..];
      SlotTargetFinds(body[1..], no, a);
    }
  }

  lemma {:induction false} SlotTargetMisses(body: seq<Op>, no: int)
    requires forall k :: 0 <= k < |body| && body[k].SlotCase? ==> body[k].slot != no
    ensures SlotTarget(body, no) == None
  {
    if body != [] {
      SlotTargetMisses(body[1..], no);
    }
  }

  /** In case N_<node> of SHLPfixLink every slot selects one attribute, and
      the selectable slots are 1 .. the number of link attributes. */
  lemma FixCaseSlots(n: NodeEntry)
    ensures var b := FixCaseBody(n);
            forall k, l :: 0 <= k < |b| && 0 <= l < |b| && b[k].SlotCase? && b[l].SlotCase? && b[k].slot == b[l].slot
                           ==> b[k].attr == b[l].attr && 1 <= b[k].slot <= LinkCount(n.attrs)
  {
    var cases := LinkCases(n.attrs);
    var b := FixCaseBody(n);
    if LinkCount(n.attrs) > 0 {
      assert b == [SwitchOnSlot] + cases + [SlotDefault, Break];
      forall k, l | 0 <= k < |b| && 0 <= l < |b| && b[k].SlotCase? && b[l].SlotCase? && b[k].slot == b[l].slot
        ensures b[k].attr == b[l].attr && 1 <= b[k].slot <= LinkCount(n.attrs)
      {
        assert b[k] == cases[k - 1] && b[l] == cases[l - 1];
      }
    }
  }

  /** The fix SEL<node> emits for attribute `x` with slot `k`, run against a
      stack whose `from` entry is a node of that type, points `x` at the
      `to` entry, or at NULL when the target was not found, and changes
      nothing else. */
  lemma SelFixIsApplied(nodes: seq<NodeEntry>, cases: seq<Fn>, i: nat, x: string, k: nat,
                        stack: seq<StackNode>, from: int, to: int)
    requires FixTable(nodes, cases)
    requires i < |nodes| && forall j :: 0 <= j < i ==> nodes[j].name != nodes[i].name
    requires FixLink(x, k) in SelBody(nodes[i])
    requires 0 <= from < |stack| && stack[from].ty == nodes[i].name
    requires to == NotFound || 0 <= to < |stack|
    ensures FixLinkRun(cases, stack, from, k, to)
            == Fixed(stack[from := stack[from].(links := stack[from].links[x := if to == NotFound then Null else At(to)])])
  {
    CaseForFirst(cases, i);
    assert SlotTarget(FixCaseBody(nodes[i]), k) == Some(x) by {
      SelFixesAreFixLinkCases(nodes[i], x, k);
      FixCaseSlots(nodes[i]);
      SlotTargetFinds(FixCaseBody(nodes[i]), k, x);
    }
  }

  /** A slot number the node type does not have falls to `default: break`:
      the stack is unchanged. */
  lemma UnmatchedSlotIsIgnored(nodes: seq<NodeEntry>, cases: seq<Fn>, i: nat,
                               stack: seq<StackNode>, from: int, no: int, to: int)
    requires FixTable(nodes, cases)
    requires i < |nodes| && forall j :: 0 <= j < i ==> nodes[j].name != nodes[i].name
    requires 0 <= from < |stack| && stack[from].ty == nodes[i].name
    requires to == NotFound || 0 <= to < |stack|
    requires no < 1 || LinkCount(nodes[i].attrs) < no
    ensures FixLinkRun(cases, stack, from, no, to) == Fixed(stack)
  {
    CaseForFirst(cases, i);
    FixCaseSlots(nodes[i]);
    SlotTargetMisses(FixCaseBody(nodes[i]), no);
  }

  /** A node type without a case reaches the unreachable default. */
  lemma UnknownTypeIsUnreachable(nodes: seq<NodeEntry>, cases: seq<Fn>,
                                 stack: seq<StackNode>, from: int, no: int, to: int)
    requires FixTable(nodes, cases)
    requires 0 <= from < |stack| && forall j :: 0 <= j < |nodes| ==> nodes[j].name != stack[from].ty
    requires to == NotFound || 0 <= to < |stack|
    ensures FixLinkRun(cases, stack, from, no, to) == InvalidNodeType
  {
    assert forall j :: 0 <= j < |cases| ==> cases[j].node != stack[from].ty;
  }

  // ---------------------------------------------------------------------
  // SEL<node> writing SHLPfixLink calls

  /** A call SHLPfixLink (stack, from, no, to) in the serialised output. */
  datatype FixCall = FixCall(from: int, no: nat, to: int)

  /** What instruction FixLink(_, slot) of SEL<node> writes when the node
      is at stack position `from` and the link attribute holds `link`
      (`None` for NULL, otherwise the position SSfindPos gives for it):
      nothing for a NULL link or one not on the stack. */
  function SelFixCall(slot: nat, from: int, link: Option<int>): Option<FixCall>
  {
    match link
    case None => None
    case Some(p) => if p == NotFound then None else Some(FixCall(from, slot, p))
  }

  /** Replaying the SHLPfixLink call SEL<node> writes for link attribute
      `x` restores the link: a link found on the stack is set to the same
      stack entry, and a NULL or unfound link writes no call at all. */
  lemma SelCallRestoresLink(nodes: seq<NodeEntry>, cases: seq<Fn>, i: nat, x: string, k: nat,
                            stack: seq<StackNode>, from: int, link: Option<int>)
    requires FixTable(nodes, cases)
    requires i < |nodes| && forall j :: 0 <= j < i ==> nodes[j].name != nodes[i].name
    requires FixLink(x, k) in SelBody(nodes[i])
    requires 0 <= from < |stack| && stack[from].ty == nodes[i].name
    requires link.Some? ==> link.value == NotFound || 0 <= link.value < |stack|
    ensures SelFixCall(k, from, link).None? <==> link.None? || link.value == NotFound
    ensures match SelFixCall(k, from, link)
            case None => true
            case Some(c) =>
              && c.from == from && c.no == k && c.to == link.value
              && FixLinkRun(cases, stack, c.from, c.no, c.to)
                 == Fixed(stack[from := stack[from].(links := stack[from].links[x := At(link.value)])])
  {
    if link.Some? && link.value != NotFound {
      SelFixIsApplied(nodes, cases, i, x, k, stack, from, link.value);
    }
  }

  // ---------------------------------------------------------------------
  // CHKRSTdoTreeCheckReset

  /** The state CHKRSTdoTreeCheckReset works on: the root's `Next` field,
      the saved `keep_next`, and the `Next` the traversal saw, once it has
      run. */
  datatype ResetRun = ResetRun(next: Son, keep: Son, seen: Option<Son>)

  /** Runs the entry point's instructions on a root node that is a Fundef
      or not. */
  function RunResetRoot(ops: seq<Op>, isFundef: bool, st: ResetRun): ResetRun
  {
    if ops == [] then st
    else
      var st' := match ops[0]
        case DetachFundefNext => if isFundef then st.(keep := st.next, next := NoSon) else st
        case TravRoot => st.(seen := Some(st.next))
        case RestoreFundefNext => if isFundef then st.(next := st.keep) else st
        case _ => st;
      RunResetRoot(ops[1..], isFundef, st')
  }

  /** The reset traversal of a Fundef root does not follow its `Next`
      chain, and the root's `Next` is the same afterwards; any other root is
      traversed with its `Next` in place. */
  lemma ResetRootKeepsNext(isFundef: bool, next: Son)
    ensures var r := RunResetRoot(ResetRootBody(), isFundef, ResetRun(next, NoSon, None));
            && r.next == next
            && r.seen == Some(if isFundef then NoSon else next)
  {
    var b := ResetRootBody();
    var s0 := ResetRun(next, NoSon, None);
    var s1 := if isFundef then ResetRun(NoSon, next, None) else s0;
    var s2 := s1.(seen := Some(s1.next));
    var s3 := if isFundef then s2.(next := s2.keep) else s2;
    assert b[1..][1..][1..][1..] == [];
    assert RunResetRoot(b, isFundef, s0) == RunResetRoot(b[1..], isFundef, s1);
    assert RunResetRoot(b[1..], isFundef, s1) == RunResetRoot(b[1..][1..], isFundef, s2);
    assert RunResetRoot(b[1..][1..], isFundef, s2) == RunResetRoot(b[1..][1..][1..], isFundef, s3);
    assert RunResetRoot(b[1..][1..][1..], isFundef, s3) == RunResetRoot(b[1..][1..][1..][1..], isFundef, s3);
  }

  // ---------------------------------------------------------------------
  // SHLPmakeNodeVa after SET<node>

  /** A son value: NULL or a node. */
  datatype Son = NoSon | SonNode(id: nat)

  /** One argument of SHLPmakeNode. */
  datatype Arg = AttrArg(value: string) | SonArg(son: Son) | FlagArg(flag: bool)

  /** The node SET<node> reads: a node of that type has every field its
      entry declares, so each field is read through a total function of its
      name. Attribute values are taken in their serialised form. */
  datatype Node = Node(attr: string -> string, son: string -> Son, flag: string -> bool)

  /** The node SHLPmakeNodeVa builds: the fields it has set, by name. */
  datatype Inst = Inst(attrs: map<string, string>, sons: map<string, Son>, flags: map<string, bool>)

  /** The arguments one SET instruction writes. */
  function ArgsOf(op: Op, v: Node): seq<Arg>
  {
    match op
    case EmitAttr(a, _) => [AttrArg(v.attr(a))]
    case EmitNull(_) => [SonArg(NoSon)]
    case EmitSon(s) => [SonArg(v.son(s))]
    case EmitFlag(f) => [FlagArg(v.flag(f))]
    case _ => []
  }

  /** The argument list SET<node> writes for node `v`. */
  function Serialise(ops: seq<Op>, v: Node): seq<Arg>
  {
    if ops == [] then [] else ArgsOf(ops[0], v) + Serialise(ops[1..], v)
  }

  /** The node under construction and the arguments not yet read. */
  datatype Built = Built(inst: Inst, rest: seq<Arg>)

  /** One constructor instruction; `None` when the next argument is missing
      or of the wrong kind. */
  function Step(op: Op, args: seq<Arg>, acc: Inst): Option<Built>
  {
    match op
    case ArgAttr(a) =>
      if args != [] && args[0].AttrArg? then Some(Built(acc.(attrs := acc.attrs[a := args[0].value]), args[1..])) else None
    case InitAttr(a, init) => Some(Built(acc.(attrs := acc.attrs[a := init]), args))
    case ArgSon(s) =>
      if args != [] && args[0].SonArg? then Some(Built(acc.(sons := acc.sons[s := args[0].son]), args[1..])) else None
    case ArgFlag(f) =>
      if args != [] && args[0].FlagArg? then Some(Built(acc.(flags := acc.flags[f := args[0].flag]), args[1..])) else None
    case _ => Some(Built(acc, args))
  }

  /** Case N_<node> of SHLPmakeNodeVa run on `args`, starting from `acc`. */
  function Construct(ops: seq<Op>, args: seq<Arg>, acc: Inst): Option<Built>
  {
    if ops == [] then Some(Built(acc, args))
    else
      match Step(ops[0], args, acc)
      case None => None
      case Some(b) => Construct(ops[1..], b.rest, b.inst)
  }

  function Then(b: Option<Built>, ops: seq<Op>): Option<Built>
  {
    match b
    case None => None
    case Some(b) => Construct(ops, b.rest, b.inst)
  }

  lemma {:induction false} ConstructAppend(xs: seq<Op>, ys: seq<Op>, args: seq<Arg>, acc: Inst)
    ensures Construct(xs + ys, args, acc) == Then(Construct(xs, args, acc), ys)
  {
    if xs == [] {
      assert xs + ys == ys;
    } else {
      assert (xs + ys)[1..] == xs[1..] + ys;
      match Step(xs[0], args, acc)
      case None =>
      case Some(b) => ConstructAppend(xs[1..], ys, b.rest, b.inst);
    }
  }

  lemma {:induction false} SerialiseAppend(xs: seq<Op>, ys: seq<Op>, v: Node)
    ensures Serialise(xs + ys, v) == Serialise(xs, v) + Serialise(ys, v)
  {
    if xs == [] {
      assert xs + ys == ys;
    } else {
      assert (xs + ys)[1..] == xs[1..] + ys;
      SerialiseAppend(xs[1..], ys, v);
    }
  }

  lemma SerialiseOne(op: Op, v: Node)
    ensures Serialise([op], v) == ArgsOf(op, v)
  {
    assert [op][1..] == [];
  }

  lemma ConstructOne(op: Op, args: seq<Arg>, acc: Inst)
    ensures Construct([op], args, acc) == Step(op, args, acc)
  {
    assert [op][1..] == [];
  }

  /** The value attribute `a` has after the round trip: its own value when
      its type is persisted, the type's initialiser otherwise. */
  function AttrAfter(cat: Catalogue, a: Attr, v: Node): string
    requires Known(cat, a.typeName)
  {
    if Persisted(cat, a) then v.attr(a.name) else TypeOf(cat, a.typeName).init
  }

  /** The value son `s` of a `node` has after the round trip: NULL when SET
      does not write it, its own value otherwise. */
  function SonAfter(node: string, s: string, v: Node): Son
  {
    if SetSonOp(node, s).EmitNull? then NoSon else v.son(s)
  }

  /** The attribute values after reading `attrs`, in declaration order, into
      `m`. */
  function AttrsAfter(cat: Catalogue, attrs: seq<Attr>, v: Node, m: map<string, string>): map<string, string>
    requires forall a :: a in attrs ==> Known(cat, a.typeName)
  {
    if attrs == [] then m
    else
      var a := attrs[|attrs| - 1];
      AttrsAfter(cat, attrs[..|attrs| - 1], v, m)[a.name := AttrAfter(cat, a, v)]
  }

  function SonsAfter(node: string, sons: seq<string>, v: Node, m: map<string, Son>): map<string, Son>
  {
    if sons == [] then m
    else
      var s := sons[|sons| - 1];
      SonsAfter(node, sons[..|sons| - 1], v, m)[s := SonAfter(node, s, v)]
  }

  function FlagsAfter(flags: seq<string>, v: Node, m: map<string, bool>): map<string, bool>
  {
    if flags == [] then m
    else
      var f := flags[|flags| - 1];
      FlagsAfter(flags[..|flags| - 1], v, m)[f := v.flag(f)]
  }

  /** The arguments SET writes for the attributes: the persisted values. */
  function AttrArgs(cat: Catalogue, attrs: seq<Attr>, v: Node): seq<Arg>
    requires forall a :: a in attrs ==> Known(cat, a.typeName)
  {
    if attrs == [] then []
    else
      var a := attrs[|attrs| - 1];
      AttrArgs(cat, attrs[..|attrs| - 1], v) + (if Persisted(cat, a) then [AttrArg(v.attr(a.name))] else [])
  }

  function SonArgs(node: string, sons: seq<string>, v: Node): seq<Arg>
  {
    if sons == [] then [] else SonArgs(node, sons[..|sons| - 1], v) + [SonArg(SonAfter(node, sons[|sons| - 1], v))]
  }

  function FlagArgs(flags: seq<string>, v: Node): seq<Arg>
  {
    if flags == [] then [] else FlagArgs(flags[..|flags| - 1], v) + [FlagArg(v.flag(flags[|flags| - 1]))]
  }

  lemma {:induction false} SerialiseAttrs(cat: Catalogue, attrs: seq<Attr>, v: Node)
    requires forall a :: a in attrs ==> Known(cat, a.typeName)
    ensures Serialise(EmitAttrOps(cat, attrs), v) == AttrArgs(cat, attrs, v)
  {
    if attrs != [] {
      var init := attrs[..|attrs| - 1];
      var a := attrs[|attrs| - 1];
      SerialiseAttrs(cat, init, v);
      var last: seq<Op> := if Persisted(cat, a) then [EmitAttr(a.name, a.typeName)] else [];
      assert Serialise(last, v) == if Persisted(cat, a) then [AttrArg(v.attr(a.name))] else [] by {
        SerialiseOne(EmitAttr(a.name, a.typeName), v);
      }
      SerialiseAppend(EmitAttrOps(cat, init), last, v);
    }
  }

  lemma {:induction false} SerialiseSons(node: string, sons: seq<string>, v: Node)
    ensures Serialise(SetSonOps(node, sons), v) == SonArgs(node, sons, v)
  {
    if sons != [] {
      var init := sons[..|sons| - 1];
      var s := sons[|sons| - 1];
      SerialiseSons(node, init, v);
      assert Serialise([SetSonOp(node, s)], v) == [SonArg(SonAfter(node, s, v))] by {
        SerialiseOne(SetSonOp(node, s), v);
      }
      SerialiseAppend(SetSonOps(node, init), [SetSonOp(node, s)], v);
    }
  }

  lemma {:induction false} SerialiseFlags(flags: seq<string>, v: Node)
    ensures Serialise(EmitFlagOps(flags), v) == FlagArgs(flags, v)
  {
    if flags != [] {
      var init := flags[..|flags| - 1];
      var f := flags[|flags| - 1];
      SerialiseFlags(init, v);
      SerialiseOne(EmitFlag(f), v);
      SerialiseAppend(EmitFlagOps(init), [EmitFlag(f)], v);
    }
  }

  /** The arguments of the field entries of SET<node>. */
  lemma FieldArguments(cat: Catalogue, n: NodeEntry, v: Node)
    requires Registered(cat, n)
    ensures Serialise([EmitHeader(n.name)] + EmitAttrOps(cat, n.attrs) + SetSonOps(n.name, n.sons) + EmitFlagOps(n.flags), v)
            == SetArgs(cat, n, v)
  {
    var attrOps := EmitAttrOps(cat, n.attrs);
    var sonOps := SetSonOps(n.name, n.sons);
    var p1 := [EmitHeader(n.name)] + attrOps;
    var p2 := p1 + sonOps;
    assert Serialise(p1, v) == AttrArgs(cat, n.attrs, v) by {
      SerialiseAttrs(cat, n.attrs, v);
      SerialiseOne(EmitHeader(n.name), v);
      SerialiseAppend([EmitHeader(n.name)], attrOps, v);
    }
    assert Serialise(p2, v) == AttrArgs(cat, n.attrs, v) + SonArgs(n.name, n.sons, v) by {
      SerialiseSons(n.name, n.sons, v);
      SerialiseAppend(p1, sonOps, v);
    }
    SerialiseFlags(n.flags, v);
    SerialiseAppend(p2, EmitFlagOps(n.flags), v);
  }

  /** Closing the record and returning write no argument. */
  lemma CloseArguments(v: Node)
    ensures Serialise([EmitClose, ReturnNode], v) == []
  {
    SerialiseOne(ReturnNode, v);
    assert [EmitClose, ReturnNode][1..] == [ReturnNode];
  }

  /** The arguments SET<node> writes: the persisted attributes, the sons
      and the flags, in that order. */
  lemma SetArguments(cat: Catalogue, n: NodeEntry, v: Node)
    requires Registered(cat, n)
    ensures Serialise(SetBody(cat, n), v) == SetArgs(cat, n, v)
  {
    var fields := [EmitHeader(n.name)] + EmitAttrOps(cat, n.attrs) + SetSonOps(n.name, n.sons) + EmitFlagOps(n.flags);
    FieldArguments(cat, n, v);
    CloseArguments(v);
    SerialiseAppend(fields, [EmitClose, ReturnNode], v);
  }

  /** The arguments SET<node> writes for node `v`, field group by field
      group. */
  function SetArgs(cat: Catalogue, n: NodeEntry, v: Node): seq<Arg>
    requires Registered(cat, n)
  {
    AttrArgs(cat, n.attrs, v) + SonArgs(n.name, n.sons, v) + FlagArgs(n.flags, v)
  }

  /** Reading one attribute: an argument when its type is persisted, the
      initialiser otherwise. */
  lemma ConstructAttr(cat: Catalogue, a: Attr, v: Node, rest: seq<Arg>, acc: Inst)
    requires Known(cat, a.typeName)
    ensures Construct([MakeAttrOp(cat, a)], (if Persisted(cat, a) then [AttrArg(v.attr(a.name))] else []) + rest, acc)
            == Some(Built(acc.(attrs := acc.attrs[a.name := AttrAfter(cat, a, v)]), rest))
  {
    var mine: seq<Arg> := if Persisted(cat, a) then [AttrArg(v.attr(a.name))] else [];
    ConstructOne(MakeAttrOp(cat, a), mine + rest, acc);
    if Persisted(cat, a) {
      assert (mine + rest)[1..] == rest;
    } else {
      assert mine + rest == rest;
    }
  }

  lemma {:induction false} ConstructAttrs(cat: Catalogue, attrs: seq<Attr>, v: Node, rest: seq<Arg>, acc: Inst)
    requires forall a :: a in attrs ==> Known(cat, a.typeName)
    ensures Construct(MakeAttrOps(cat, attrs), AttrArgs(cat, attrs, v) + rest, acc)
            == Some(Built(acc.(attrs := AttrsAfter(cat, attrs, v, acc.attrs)), rest))
  {
    if attrs != [] {
      var init := attrs[..|attrs| - 1];
      var a := attrs[|attrs| - 1];
      var mine: seq<Arg> := if Persisted(cat, a) then [AttrArg(v.attr(a.name))] else [];
      var mid := acc.(attrs := AttrsAfter(cat, init, v, acc.attrs));
      var args := AttrArgs(cat, init, v) + (mine + rest);
      assert AttrArgs(cat, attrs, v) + rest == args;
      assert Construct(MakeAttrOps(cat, init), args, acc) == Some(Built(mid, mine + rest)) by {
        ConstructAttrs(cat, init, v, mine + rest, acc);
      }
      ConstructAttr(cat, a, v, rest, mid);
      ConstructAppend(MakeAttrOps(cat, init), [MakeAttrOp(cat, a)], args, acc);
    } else {
      assert AttrArgs(cat, attrs, v) + rest == rest;
    }
  }

  /** Reading a son or a flag takes the next argument. */
  lemma ConstructArg(op: Op, x: Arg, rest: seq<Arg>, acc: Inst)
    requires (op.ArgSon? && x.SonArg?) || (op.ArgFlag? && x.FlagArg?)
    ensures op.ArgSon? ==> Construct([op], [x] + rest, acc) == Some(Built(acc.(sons := acc.sons[op.son := x.son]), rest))
    ensures op.ArgFlag? ==> Construct([op], [x] + rest, acc) == Some(Built(acc.(flags := acc.flags[op.flag := x.flag]), rest))
  {
    ConstructOne(op, [x] + rest, acc);
    assert ([x] + rest)[1..] == rest;
  }

  lemma {:induction false} ConstructSons(node: string, sons: seq<string>, v: Node, rest: seq<Arg>, acc: Inst)
    ensures Construct(ArgSonOps(sons), SonArgs(node, sons, v) + rest, acc)
            == Some(Built(acc.(sons := SonsAfter(node, sons, v, acc.sons)), rest))
  {
    if sons != [] {
      var init := sons[..|sons| - 1];
      var s := sons[|sons| - 1];
      var mine := [SonArg(SonAfter(node, s, v))];
      var mid := acc.(sons := SonsAfter(node, init, v, acc.sons));
      var args := SonArgs(node, init, v) + (mine + rest);
      assert SonArgs(node, sons, v) + rest == args;
      assert Construct(ArgSonOps(init), args, acc) == Some(Built(mid, mine + rest)) by {
        ConstructSons(node, init, v, mine + rest, acc);
      }
      ConstructArg(ArgSon(s), SonArg(SonAfter(node, s, v)), rest, mid);
      ConstructAppend(ArgSonOps(init), [ArgSon(s)], args, acc);
    } else {
      assert SonArgs(node, sons, v) + rest == rest;
    }
  }

  lemma {:induction false} ConstructFlags(flags: seq<string>, v: Node, rest: seq<Arg>, acc: Inst)
    ensures Construct(ArgFlagOps(flags), FlagArgs(flags, v) + rest, acc)
            == Some(Built(acc.(flags := FlagsAfter(flags, v, acc.flags)), rest))
  {
    if flags != [] {
      var init := flags[..|flags| - 1];
      var f := flags[|flags| - 1];
      var mine := [FlagArg(v.flag(f))];
      var mid := acc.(flags := FlagsAfter(init, v, acc.flags));
      var args := FlagArgs(init, v) + (mine + rest);
      assert FlagArgs(flags, v) + rest == args;
      assert Construct(ArgFlagOps(init), args, acc) == Some(Built(mid, mine + rest)) by {
        ConstructFlags(init, v, mine + rest, acc);
      }
      ConstructArg(ArgFlag(f), FlagArg(v.flag(f)), rest, mid);
      ConstructAppend(ArgFlagOps(init), [ArgFlag(f)], args, acc);
    } else {
      assert FlagArgs(flags, v) + rest == rest;
    }
  }

  /** Allocation and binding read no argument and set no field. */
  lemma ConstructHead(n: NodeEntry, args: seq<Arg>, acc: Inst)
    ensures Construct(MakeHead(n), args, acc) == Some(Built(acc, args))
  {
    var s: seq<Op> := if |n.sons| != 0 then [BindSons] else [];
    var a: seq<Op> := if |n.flags| != 0 || |n.attrs| != 0 then [BindAttribs] else [];
    ConstructOne(Alloc(n.name), args, acc);
    ConstructOne(BindSons, args, acc);
    ConstructOne(BindAttribs, args, acc);
    assert Construct(s, args, acc) == Some(Built(acc, args));
    assert Construct(a, args, acc) == Some(Built(acc, args));
    ConstructAppend([Alloc(n.name)], s, args, acc);
    ConstructAppend([Alloc(n.name)] + s, a, args, acc);
  }

  const Blank := Inst(map[], map[], map[])

  /** The node case N_<node> of SHLPmakeNodeVa builds from the persisted
      attribute values, the son values and the flag values, in order. */
  function Rebuilt(cat: Catalogue, n: NodeEntry, v: Node): Inst
    requires Registered(cat, n)
  {
    Inst(AttrsAfter(cat, n.attrs, v, map[]), SonsAfter(n.name, n.sons, v, map[]), FlagsAfter(n.flags, v, map[]))
  }

  lemma ConstructPrefix(cat: Catalogue, n: NodeEntry, v: Node)
    requires Registered(cat, n)
    ensures Construct(MakeHead(n) + MakeAttrOps(cat, n.attrs) + ArgSonOps(n.sons),
                      AttrArgs(cat, n.attrs, v) + SonArgs(n.name, n.sons, v) + FlagArgs(n.flags, v), Blank)
            == Some(Built(Blank.(attrs := AttrsAfter(cat, n.attrs, v, map[])).(sons := SonsAfter(n.name, n.sons, v, map[])),
                          FlagArgs(n.flags, v)))
  {
    var aArgs := AttrArgs(cat, n.attrs, v);
    var sArgs := SonArgs(n.name, n.sons, v);
    var fArgs := FlagArgs(n.flags, v);
    var head := MakeHead(n);
    var attrOps := MakeAttrOps(cat, n.attrs);
    var args := aArgs + sArgs + fArgs;
    var i1 := Blank.(attrs := AttrsAfter(cat, n.attrs, v, map[]));
    assert Construct(head + attrOps, args, Blank) == Some(Built(i1, sArgs + fArgs)) by {
      ConstructHead(n, args, Blank);
      ConstructAppend(head, attrOps, args, Blank);
      assert args == aArgs + (sArgs + fArgs);
      ConstructAttrs(cat, n.attrs, v, sArgs + fArgs, Blank);
    }
    ConstructAppend(head + attrOps, ArgSonOps(n.sons), args, Blank);
    ConstructSons(n.name, n.sons, v, fArgs, i1);
  }

  lemma ConstructFields(cat: Catalogue, n: NodeEntry, v: Node)
    requires Registered(cat, n)
    ensures Construct(MakeHead(n) + MakeAttrOps(cat, n.attrs) + ArgSonOps(n.sons) + ArgFlagOps(n.flags), SetArgs(cat, n, v), Blank)
            == Some(Built(Rebuilt(cat, n, v), []))
  {
    var prefix := MakeHead(n) + MakeAttrOps(cat, n.attrs) + ArgSonOps(n.sons);
    var i2 := Blank.(attrs := AttrsAfter(cat, n.attrs, v, map[])).(sons := SonsAfter(n.name, n.sons, v, map[]));
    ConstructPrefix(cat, n, v);
    ConstructAppend(prefix, ArgFlagOps(n.flags), SetArgs(cat, n, v), Blank);
    assert FlagArgs(n.flags, v) == FlagArgs(n.flags, v) + [];
    ConstructFlags(n.flags, v, [], i2);
  }

  /** Case N_<node> of SHLPmakeNodeVa reads exactly the arguments SET<node>
      writes and sets every declared field from them. */
  lemma ConstructMake(cat: Catalogue, n: NodeEntry, v: Node)
    requires Registered(cat, n)
    ensures Construct(MakeBody(cat, n), SetArgs(cat, n, v), Blank) == Some(Built(Rebuilt(cat, n, v), []))
  {
    ConstructFields(cat, n, v);
    ConstructAppend(MakeHead(n) + MakeAttrOps(cat, n.attrs) + ArgSonOps(n.sons) + ArgFlagOps(n.flags),
                    [Break], SetArgs(cat, n, v), Blank);
    ConstructOne(Break, [], Rebuilt(cat, n, v));
  }

  /** Construction after serialisation: case N_<node> of SHLPmakeNodeVa,
      run on the arguments SET<node> writes for node `v`, reads all of them
      and sets every declared field: each persisted attribute to its value
      and the others to their initialiser (AttrsAfterAt), each son to its
      value or to NULL where SET writes NULL (SonsAfterAt), each flag to
      its value (FlagsAfterAt). */
  lemma RoundTrip(cat: Catalogue, n: NodeEntry, v: Node)
    requires Registered(cat, n)
    ensures Construct(MakeBody(cat, n), Serialise(SetBody(cat, n), v), Blank) == Some(Built(Rebuilt(cat, n, v), []))
  {
    SetArguments(cat, n, v);
    ConstructMake(cat, n, v);
  }

  /** The value an attribute has after the round trip (attribute names
      being distinct). */
  lemma {:induction false} AttrsAfterAt(cat: Catalogue, attrs: seq<Attr>, v: Node, m: map<string, string>, k: nat)
    requires forall a :: a in attrs ==> Known(cat, a.typeName)
    requires k < |attrs| && forall j :: k < j < |attrs| ==> attrs[j].name != attrs[k].name
    ensures attrs[k].name in AttrsAfter(cat, attrs, v, m)
    ensures AttrsAfter(cat, attrs, v, m)[attrs[k].name] == AttrAfter(cat, attrs[k], v)
  {
    var init := attrs[..|attrs| - 1];
    if k < |attrs| - 1 {
      assert init[k] == attrs[k];
      AttrsAfterAt(cat, init, v, m, k);
    }
  }

  /** No attribute is set that the entry does not declare. */
  lemma {:induction false} AttrsAfterKeys(cat: Catalogue, attrs: seq<Attr>, v: Node, m: map<string, string>)
    requires forall a :: a in attrs ==> Known(cat, a.typeName)
    ensures forall x :: x in AttrsAfter(cat, attrs, v, m) <==> x in m || exists a :: a in attrs && a.name == x
  {
    if attrs != [] {
      var init := attrs[..|attrs| - 1];
      AttrsAfterKeys(cat, init, v, m);
      assert attrs == init + [attrs[|attrs| - 1]];
    }
  }

  /** The value a son has after the round trip (son names being distinct). */
  lemma {:induction false} SonsAfterAt(node: string, sons: seq<string>, v: Node, m: map<string, Son>, k: nat)
    requires k < |sons| && forall j :: k < j < |sons| ==> sons[j] != sons[k]
    ensures sons[k] in SonsAfter(node, sons, v, m)
    ensures SonsAfter(node, sons, v, m)[sons[k]] == SonAfter(node, sons[k], v)
  {
    var init := sons[..|sons| - 1];
    if k < |sons| - 1 {
      assert init[k] == sons[k];
      SonsAfterAt(node, init, v, m, k);
    }
  }

  /** Every flag keeps its value through the round trip. */
  lemma {:induction false} FlagsAfterAt(flags: seq<string>, v: Node, m: map<string, bool>, k: nat)
    requires k < |flags|
    ensures flags[k] in FlagsAfter(flags, v, m)
    ensures FlagsAfter(flags, v, m)[flags[k]] == v.flag(flags[k])
  {
    var init := flags[..|flags| - 1];
    if k < |flags| - 1 && flags[|flags| - 1] != flags[k] {
      assert init[k] == flags[k];
      FlagsAfterAt(init, v, m, k);
    }
  }
}
