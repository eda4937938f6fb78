/** The tree-check operations derived for every node entry
    (`gen_check_reset_c`, `gen_check_node_c`).

    CHKRST<node> clears the visited marker and descends into every non-null
    son, `Next` included, in declaration order.  CHKRSTdoTreeCheckReset, the
    entry point, detaches the `Next` chain of a Fundef around the traversal.
    CHKM<node> touches the node, descends into the error node and then the
    `Next` chain (the order FREE uses), touches every attribute whose type is
    copied as a node, and descends into the remaining sons. */
module Validation {
  import opened Schema

  /** The body of CHKRST<node>. */
  function ResetBody(n: NodeEntry): seq<Op>
  {
    [ClearVisited] + TravSons(n.sons) + [ReturnNode]
  }

  /** The body of CHKRSTdoTreeCheckReset, the same for every schema. */
  function ResetRootBody(): seq<Op>
  {
    [DetachFundefNext, TravRoot, RestoreFundefNext, ReturnNode]
  }

  /** gen_check_reset_c: the entry point, then one CHKRST function per node
      entry. */
  method GenCheckReset(nodes: seq<NodeEntry>) returns (root: seq<Op>, out: seq<Fn>)
    ensures root == ResetRootBody()
    ensures |out| == |nodes|
    ensures forall i :: 0 <= i < |nodes| ==> out[i] == Fn(nodes[i].name, ResetBody(nodes[i]))
  {
    root := [DetachFundefNext, TravRoot, RestoreFundefNext, ReturnNode];
    out := [];
    for i := 0 to |nodes|
      invariant |out| == i
      invariant forall k :: 0 <= k < i ==> out[k] == Fn(nodes[k].name, ResetBody(nodes[k]))
    {
      var body := GenResetFunction(nodes[i]);
      out := out + [Fn(nodes[i].name, body)];
    }
  }

  /** The body of one CHKRST function. */
  method GenResetFunction(n: NodeEntry) returns (body: seq<Op>)
    ensures body == ResetBody(n)
  {
    body := [ClearVisited];
    for j := 0 to |n.sons|
      invariant body == [ClearVisited] + TravSons(n.sons[..j])
    {
      assert n.sons[..j + 1][..j] == n.sons[..j];
      body := body + [TravSon(n.sons[j])];
    }
    assert n.sons[..|n.sons|] == n.sons;
    body := body + [ReturnNode];
  }

  /** CHKM<node> touches attribute `a`: its type is copied as a node
      (literal and function types are skipped). */
  predicate TouchesAttr(cat: Catalogue, a: Attr)
    requires Known(cat, a.typeName)
  {
    !(TypeOf(cat, a.typeName).copy == Literal || TypeOf(cat, a.typeName).copy == Function)
  }

  function TouchAttrOps(cat: Catalogue, attrs: seq<Attr>): (r: seq<Op>)
    requires forall a :: a in attrs ==> Known(cat, a.typeName)
    ensures |r| <= |attrs|
    ensures forall k :: 0 <= k < |r| ==> r[k].TouchAttr?
  {
    if attrs == [] then []
    else
      var a := attrs[|attrs| - 1];
      TouchAttrOps(cat, attrs[..|attrs| - 1]) + (if TouchesAttr(cat, a) then [TouchAttr(a.name)] else [])
  }

  /** The start of CHKM<node>: touch the node, then the error node, then
      the `Next` chain. */
  function CheckHead(n: NodeEntry): seq<Op>
  {
    [Touch, TravError] + (if HasNext(n) then [TravSon("Next")] else [])
  }

  /** The body of CHKM<node>. */
  function CheckBody(cat: Catalogue, n: NodeEntry): seq<Op>
    requires Registered(cat, n)
  {
    CheckHead(n) + TouchAttrOps(cat, n.attrs) + TravSonsExceptNext(n.sons) + [ReturnNode]
  }

  /** gen_check_node_c: one CHKM function per node entry. */
  method GenCheckNode(cat: Catalogue, nodes: seq<NodeEntry>) returns (out: seq<Fn>)
    requires RegisteredAll(cat, nodes)
    ensures |out| == |nodes|
    ensures forall i :: 0 <= i < |nodes| ==> out[i] == Fn(nodes[i].name, CheckBody(cat, nodes[i]))
  {
    out := [];
    for i := 0 to |nodes|
      invariant |out| == i
      invariant forall k :: 0 <= k < i ==> out[k] == Fn(nodes[k].name, CheckBody(cat, nodes[k]))
    {
      assert nodes[i] in nodes;
      var body := GenCheckFunction(cat, nodes[i]);
      out := out + [Fn(nodes[i].name, body)];
    }
  }

  /** The body of one CHKM function. */
  method GenCheckFunction(cat: Catalogue, n: NodeEntry) returns (body: seq<Op>)
    requires Registered(cat, n)
    ensures body == CheckBody(cat, n)
  {
    var head := [Touch, TravError];
    if "Next" in n.sons {
      head := head + [TravSon("Next")];
    }
    var touches := GenTouchAttrs(cat, n.attrs);
    var sonOps := GenTravSonsExceptNext(n.sons);
    body := head + touches + sonOps + [ReturnNode];
  }

  /** The attribute loop of CHKM<node>. */
  method GenTouchAttrs(cat: Catalogue, attrs: seq<Attr>) returns (touches: seq<Op>)
    requires forall a :: a in attrs ==> Known(cat, a.typeName)
    ensures touches == TouchAttrOps(cat, attrs)
  {
    touches := [];
    for j := 0 to |attrs|
      invariant touches == TouchAttrOps(cat, attrs[..j])
    {
      var a := attrs[j];
      assert attrs[..j + 1][..j] == attrs[..j];
      var atn := Find(cat.types, a.typeName);
      if atn.value.copy == Literal || atn.value.copy == Function {
        continue;
      }
      touches := touches + [TouchAttr(a.name)];
    }
    assert attrs[..|attrs|] == attrs;
  }

  // ---------------------------------------------------------------------
  // What the derivation promises

  /** CHKRST<node> clears the marker first, then traverses every son,
      `Next` included, once each and in declaration order. */
  lemma ResetBodyShape(n: NodeEntry)
    ensures var b := ResetBody(n);
            && |b| == |n.sons| + 2
            && b[0] == ClearVisited && b[|b| - 1] == ReturnNode
            && forall k :: 0 <= k < |n.sons| ==> b[k + 1] == TravSon(n.sons[k])
  {
    var b := ResetBody(n);
    var t := TravSons(n.sons);
    forall k | 0 <= k < |n.sons|
      ensures b[k + 1] == TravSon(n.sons[k])
    {
      assert b[k + 1] == t[k];
    }
  }

  lemma {:induction false} TouchAttrOpsMember(cat: Catalogue, attrs: seq<Attr>, x: string)
    requires forall a :: a in attrs ==> Known(cat, a.typeName)
    ensures TouchAttr(x) in TouchAttrOps(cat, attrs)
            <==> exists a :: a in attrs && a.name == x && TouchesAttr(cat, a)
  {
    if attrs != [] {
      var init := attrs[..|attrs| - 1];
      TouchAttrOpsMember(cat, init, x);
      assert attrs == init + [attrs[|attrs| - 1]];
    }
  }

  /** CHKM<node> touches exactly the attributes whose type is copied as a
      node. */
  lemma CheckTouches(cat: Catalogue, n: NodeEntry, x: string)
    requires Registered(cat, n)
    ensures TouchAttr(x) in CheckBody(cat, n)
            <==> exists a :: a in n.attrs && a.name == x && TypeOf(cat, a.typeName).copy == NodeCopy
  {
    TouchAttrOpsMember(cat, n.attrs, x);
    var sonOps := TravSonsExceptNext(n.sons);
    assert TouchAttr(x) !in sonOps;
    assert TouchAttr(x) !in CheckHead(n);
  }

  /** CHKM<node> traverses every son, `Next` included, and begins by
      touching the node, then the error node, then `Next`. */
  lemma CheckSons(cat: Catalogue, n: NodeEntry, s: string)
    requires Registered(cat, n)
    ensures TravSon(s) in CheckBody(cat, n) <==> s in n.sons
    ensures var b := CheckBody(cat, n);
            && b[0] == Touch && b[1] == TravError
            && (HasNext(n) ==> b[2] == TravSon("Next"))
            && b[|b| - 1] == ReturnNode
  {
    TravSonsExceptNextMember(n.sons, s);
    var touches := TouchAttrOps(cat, n.attrs);
    assert TravSon(s) !in touches;
  }

  /** CHKRST<node> and CHKM<node> visit the same sons. */
  lemma ResetAndCheckVisitSameSons(cat: Catalogue, n: NodeEntry, s: string)
    requires Registered(cat, n)
    ensures TravSon(s) in ResetBody(n) <==> TravSon(s) in CheckBody(cat, n)
  {
    CheckSons(cat, n, s);
    var b := ResetBody(n);
    if s in n.sons {
      var k :| 0 <= k < |n.sons| && n.sons[k] == s;
      assert b[k + 1] == TravSon(s);
    }
  }
}
