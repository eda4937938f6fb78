/** The destroy operation FREE<node> derived for every node entry
    (`gen_free_node_c`).

    Every FREE function first releases the error side-node, then the `Next`
    chain unless the current node is the stop marker, then every attribute
    whose type is not copied bitwise, then every other son, and finally the
    node itself, returning its `Next` son (or NULL).  `Fundef` is the zombie
    exception: it is zombified instead of freed, keeps its identity
    attributes, and returns itself. */
module Lifecycle {
  import opened Schema

  /** Attributes FREEfundef leaves in place, so that links to the zombie
      still resolve. */
  const ZombieKeeps: set<string> := {"Name", "Mod", "LinkMod", "Types", "Type", "Impl"}

  /** FREE<node> releases attribute `a`. */
  predicate FreesAttr(cat: Catalogue, node: string, a: Attr)
    requires Known(cat, a.typeName)
  {
    TypeOf(cat, a.typeName).copy != Literal && !(node == "Fundef" && a.name in ZombieKeeps)
  }

  /** The attribute-freeing instructions, in declaration order. */
  function FreeAttrOps(cat: Catalogue, node: string, attrs: seq<Attr>): (r: seq<Op>)
    requires forall a :: a in attrs ==> Known(cat, a.typeName)
    ensures |r| <= |attrs|
    ensures forall k :: 0 <= k < |r| ==> r[k].FreeAttr?
  {
    if attrs == [] then []
    else
      var a := attrs[|attrs| - 1];
      FreeAttrOps(cat, node, attrs[..|attrs| - 1])
      + (if FreesAttr(cat, node, a) then [FreeAttr(a.name, a.typeName)] else [])
  }

  /** The start of FREE<node>: zombify (Fundef only), release the error
      node, then the `Next` chain unless this node is the stop marker. */
  function FreeHead(n: NodeEntry): seq<Op>
  {
    (if n.name == "Fundef" then [Zombify] else [])
    + [TravError]
    + (if HasNext(n) then [TravNextUnlessStop] else [])
  }

  /** The end of FREE<node>: a Fundef returns itself; any other node keeps
      its `Next` son as the result, is released, and returns the result. */
  function FreeTail(n: NodeEntry): seq<Op>
  {
    if n.name == "Fundef" then [ReturnNode]
    else (if HasNext(n) then [KeepNext] else []) + [MemFree, ReturnResult]
  }

  /** The body of FREE<node>. */
  function FreeBody(cat: Catalogue, n: NodeEntry): seq<Op>
    requires Registered(cat, n)
  {
    FreeHead(n) + FreeAttrOps(cat, n.name, n.attrs) + TravSonsExceptNext(n.sons) + FreeTail(n)
  }

  /** gen_free_node_c: one FREE function per node entry, in schema order. */
  method GenFreeNode(cat: Catalogue, nodes: seq<NodeEntry>) returns (out: seq<Fn>)
    requires RegisteredAll(cat, nodes)
    ensures |out| == |nodes|
    ensures forall i :: 0 <= i < |nodes| ==> out[i] == Fn(nodes[i].name, FreeBody(cat, nodes[i]))
  {
    out := [];
    for i := 0 to |nodes|
      invariant |out| == i
      invariant forall k :: 0 <= k < i ==> out[k] == Fn(nodes[k].name, FreeBody(cat, nodes[k]))
    {
      var body := GenFreeFunction(cat, nodes[i]);
      out := out + [Fn(nodes[i].name, body)];
    }
  }

  /** The body of the outer loop of gen_free_node_c: FREE<node> for one entry. */
  method GenFreeFunction(cat: Catalogue, n: NodeEntry) returns (body: seq<Op>)
    requires Registered(cat, n)
    ensures body == FreeBody(cat, n)
  {
    var head: seq<Op> := [];
    if n.name == "Fundef" {
      head := [Zombify];
    }
    head := head + [TravError];
    var next := "Next" in n.sons;
    if next {
      head := head + [TravNextUnlessStop];
    }
    assert head == FreeHead(n);
    var attrOps := GenFreeAttrs(cat, n.name, n.attrs);
    var sonOps := GenTravSonsExceptNext(n.sons);
    var tail: seq<Op>;
    if n.name == "Fundef" {
      tail := [ReturnNode];
    } else {
      tail := [];
      if next {
        tail := [KeepNext];
      }
      tail := tail + [MemFree, ReturnResult];
    }
    assert tail == FreeTail(n);
    body := head + attrOps + sonOps + tail;
  }

  /** The attribute loop of gen_free_node_c. */
  method GenFreeAttrs(cat: Catalogue, node: string, attrs: seq<Attr>) returns (ops: seq<Op>)
    requires forall a :: a in attrs ==> Known(cat, a.typeName)
    ensures ops == FreeAttrOps(cat, node, attrs)
  {
    ops := [];
    for j := 0 to |attrs|
      invariant ops == FreeAttrOps(cat, node, attrs[..j])
    {
      var a := attrs[j];
      assert attrs[..j + 1][..j] == attrs[..j];
      var atn := Find(cat.types, a.typeName);
      if atn.value.copy == Literal {
        continue;
      }
      if node == "Fundef"
         && (a.name == "Name" || a.name == "Mod" || a.name == "LinkMod"
             || a.name == "Types" || a.name == "Type" || a.name == "Impl") {
        continue;
      }
      ops := ops + [FreeAttr(a.name, atn.value.name)];
    }
    assert attrs[..|attrs|] == attrs;
  }

  // ---------------------------------------------------------------------
  // What the derivation promises

  lemma {:induction false} FreeAttrOpsMember(cat: Catalogue, node: string, attrs: seq<Attr>, op: Op)
    requires forall a :: a in attrs ==> Known(cat, a.typeName)
    ensures op in FreeAttrOps(cat, node, attrs)
            <==> exists a :: a in attrs && FreesAttr(cat, node, a) && op == FreeAttr(a.name, a.typeName)
  {
    if attrs != [] {
      var init := attrs[..|attrs| - 1];
      FreeAttrOpsMember(cat, node, init, op);
      assert attrs == init + [attrs[|attrs| - 1]];
    }
  }

  /** The instructions for a split declaration are those of its parts, in
      order: attributes are released in declaration order. */
  lemma {:induction false} FreeAttrOpsAppend(cat: Catalogue, node: string, xs: seq<Attr>, ys: seq<Attr>)
    requires forall a :: a in xs + ys ==> Known(cat, a.typeName)
    ensures FreeAttrOps(cat, node, xs + ys) == FreeAttrOps(cat, node, xs) + FreeAttrOps(cat, node, ys)
  {
    if ys == [] {
      assert xs + ys == xs;
    } else {
      var init := ys[..|ys| - 1];
      assert (xs + ys)[..|xs + ys| - 1] == xs + init;
      FreeAttrOpsAppend(cat, node, xs, init);
    }
  }

  /** The phase an instruction of a FREE body belongs to. */
  function FreeRank(op: Op): nat
  {
    match op
    case Zombify => 0
    case TravError => 1
    case TravNextUnlessStop => 2
    case FreeAttr(_, _) => 3
    case TravSon(_) => 4
    case KeepNext => 5
    case MemFree => 6
    case _ => 7
  }

  ghost predicate RankSorted(s: seq<Op>)
  {
    forall i, j :: 0 <= i < j < |s| ==> FreeRank(s[i]) <= FreeRank(s[j])
  }

  lemma RankSortedConcat(a: seq<Op>, b: seq<Op>, mid: nat)
    requires RankSorted(a) && RankSorted(b)
    requires forall k :: 0 <= k < |a| ==> FreeRank(a[k]) <= mid
    requires forall k :: 0 <= k < |b| ==> mid <= FreeRank(b[k])
    ensures RankSorted(a + b)
  {
    forall i, j | 0 <= i < j < |a + b|
      ensures FreeRank((a + b)[i]) <= FreeRank((a + b)[j])
    {
      if j < |a| {
        assert (a + b)[i] == a[i] && (a + b)[j] == a[j];
      } else if i >= |a| {
        assert (a + b)[i] == b[i - |a|] && (a + b)[j] == b[j - |a|];
      } else {
        assert (a + b)[i] == a[i] && (a + b)[j] == b[j - |a|];
      }
    }
  }

  lemma ConstRankSorted(s: seq<Op>, r: nat)
    requires forall k :: 0 <= k < |s| ==> FreeRank(s[k]) == r
    ensures RankSorted(s)
  {
  }

  /** FREE<node> works in this order: zombify (Fundef only), the error
      node, the `Next` chain, the attributes, the other sons, keep `Next`,
      release the node, return. */
  lemma FreeBodyOrdered(cat: Catalogue, n: NodeEntry)
    requires Registered(cat, n)
    ensures RankSorted(FreeBody(cat, n))
  {
    var head := FreeHead(n);
    var attrOps := FreeAttrOps(cat, n.name, n.attrs);
    var sonOps := TravSonsExceptNext(n.sons);
    var tail := FreeTail(n);
    FreeHeadRanks(n);
    FreeTailRanks(n);
    ConstRankSorted(attrOps, 3);
    RankSortedConcat(head, attrOps, 2);
    ConstRankSorted(sonOps, 4);
    RankSortedConcat(head + attrOps, sonOps, 4);
    RankSortedConcat(head + attrOps + sonOps, tail, 4);
  }

  lemma FreeHeadRanks(n: NodeEntry)
    ensures RankSorted(FreeHead(n))
    ensures forall k :: 0 <= k < |FreeHead(n)| ==> FreeRank(FreeHead(n)[k]) <= 2
  {
    var z: seq<Op> := if n.name == "Fundef" then [Zombify] else [];
    var x: seq<Op> := if HasNext(n) then [TravNextUnlessStop] else [];
    assert FreeHead(n) == z + [TravError] + x;
    RankSortedConcat(z, [TravError], 0);
    RankSortedConcat(z + [TravError], x, 1);
  }

  lemma FreeTailRanks(n: NodeEntry)
    ensures RankSorted(FreeTail(n))
    ensures forall k :: 0 <= k < |FreeTail(n)| ==> 5 <= FreeRank(FreeTail(n)[k])
  {
    if n.name != "Fundef" {
      var x: seq<Op> := if HasNext(n) then [KeepNext] else [];
      RankSortedConcat(x, [MemFree, ReturnResult], 5);
    }
  }

  /** Which attributes FREE<node> releases: exactly the ones whose type is
      not copied bitwise, except the identity attributes of a Fundef. */
  lemma FreeBodyAttrs(cat: Catalogue, n: NodeEntry, x: string, t: string)
    requires Registered(cat, n)
    ensures FreeAttr(x, t) in FreeBody(cat, n)
            <==> Attr(x, t) in n.attrs && TypeOf(cat, t).copy != Literal
                 && !(n.name == "Fundef" && x in ZombieKeeps)
  {
    FreeAttrOpsMember(cat, n.name, n.attrs, FreeAttr(x, t));
    var attrOps := FreeAttrOps(cat, n.name, n.attrs);
    var sonOps := TravSonsExceptNext(n.sons);
    var tail := FreeTail(n);
    var p2 := FreeHead(n);
    assert FreeAttr(x, t) !in p2 && FreeAttr(x, t) !in tail;
    assert FreeAttr(x, t) !in sonOps;
  }

  /** Which sons FREE<node> traverses: `Next` through the stop-marker guard
      when present, and every other son directly. */
  lemma FreeBodySons(cat: Catalogue, n: NodeEntry, s: string)
    requires Registered(cat, n)
    ensures TravSon(s) in FreeBody(cat, n) <==> s in n.sons && s != "Next"
    ensures TravNextUnlessStop in FreeBody(cat, n) <==> HasNext(n)
  {
    TravSonsExceptNextMember(n.sons, s);
    var attrOps := FreeAttrOps(cat, n.name, n.attrs);
    var sonOps := TravSonsExceptNext(n.sons);
    var tail := FreeTail(n);
    var p2 := FreeHead(n);
    assert TravSon(s) !in attrOps && TravNextUnlessStop !in attrOps;
    assert TravNextUnlessStop !in sonOps;
  }

  /** The head and the tail of FREE<node>: the error node is released first
      (after zombification for a Fundef), the `Next` chain right after it;
      a Fundef is never released and returns itself, every other node is
      released and then returns. */
  lemma FreeBodyFrame(cat: Catalogue, n: NodeEntry)
    requires Registered(cat, n)
    ensures var b := FreeBody(cat, n);
            var e := if n.name == "Fundef" then 1 else 0;
            && |b| >= e + 2
            && (n.name == "Fundef" ==> b[0] == Zombify)
            && b[e] == TravError
            && (HasNext(n) ==> b[e + 1] == TravNextUnlessStop)
            && (n.name == "Fundef" <==> MemFree !in b)
            && (n.name == "Fundef" ==> b[|b| - 1] == ReturnNode)
            && (n.name != "Fundef" ==> b[|b| - 2] == MemFree && b[|b| - 1] == ReturnResult)
  {
    var attrOps := FreeAttrOps(cat, n.name, n.attrs);
    var sonOps := TravSonsExceptNext(n.sons);
    assert MemFree !in attrOps && MemFree !in sonOps;
  }

  // ---------------------------------------------------------------------
  // What FREE<node> returns

  /** The value a FREE function returns. */
  datatype Returned = ReturnsNull | ReturnsNext | ReturnsSelf

  /** Runs the `result` variable of a FREE body: it starts as NULL, KeepNext
      loads the `Next` son into it, and the first return gives the value. */
  function ReturnValue(ops: seq<Op>, result: Returned): Option<Returned>
  {
    if ops == [] then None
    else match ops[0]
      case KeepNext => ReturnValue(ops[1..], ReturnsNext)
      case ReturnResult => Some(result)
      case ReturnNode => Some(ReturnsSelf)
      case _ => ReturnValue(ops[1..], result)
  }

  lemma {:induction false} ReturnValueSkip(xs: seq<Op>, ys: seq<Op>, result: Returned)
    requires forall k :: 0 <= k < |xs| ==> !(xs[k].KeepNext? || xs[k].ReturnResult? || xs[k].ReturnNode?)
    ensures ReturnValue(xs + ys, result) == ReturnValue(ys, result)
  {
    if xs == [] {
      assert xs + ys == ys;
    } else {
      assert (xs + ys)[0] == xs[0];
      assert (xs + ys)[1..] == xs[1..] + ys;
      assert ReturnValue(xs + ys, result) == ReturnValue((xs + ys)[1..], result);
      ReturnValueSkip(xs[1..], ys, result);
    }
  }

  /** FREE<node> returns the node itself for a Fundef (a zombie), its `Next`
      son when it has one, and NULL otherwise. */
  lemma FreeReturns(cat: Catalogue, n: NodeEntry)
    requires Registered(cat, n)
    ensures ReturnValue(FreeBody(cat, n), ReturnsNull)
            == Some(if n.name == "Fundef" then ReturnsSelf
                    else if HasNext(n) then ReturnsNext else ReturnsNull)
  {
    var attrOps := FreeAttrOps(cat, n.name, n.attrs);
    var sonOps := TravSonsExceptNext(n.sons);
    var tail := FreeTail(n);
    var p2 := FreeHead(n);
    var front := p2 + attrOps + sonOps;
    assert FreeBody(cat, n) == front + tail;
    forall k | 0 <= k < |front|
      ensures !(front[k].KeepNext? || front[k].ReturnResult? || front[k].ReturnNode?)
    {
      if k < |p2| {
      } else if k < |p2| + |attrOps| {
        assert front[k] == attrOps[k - |p2|];
      } else {
        assert front[k] == sonOps[k - |p2| - |attrOps|];
      }
    }
    ReturnValueSkip(front, tail, ReturnsNull);
    if n.name != "Fundef" {
      if HasNext(n) {
        assert tail[1..] == [MemFree, ReturnResult];
      }
      assert [MemFree, ReturnResult][1..] == [ReturnResult];
    }
  }
}
