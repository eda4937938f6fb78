/** The enumerations and registry records shared by the validator and the
    generators (`validator.h`). */
module Validator {
  import opened Schema

  /** `enum ast_node_name_type`: a registered name is a node or a node set. */
  datatype AstNodeNameType = NntNode | NntNodeset

  /** `enum trav_node_type`: how a traversal handles a node. */
  datatype TravNodeType = TntUser | TntSons | TntError | TntNone

  /** `struct node_name`: an entry of the node-name registry. */
  datatype NodeName = NodeName(name: string, nameType: AstNodeNameType)

  /** `struct traversal_node`: a node a traversal names, and how it handles it. */
  datatype TraversalNode = TraversalNode(name: string, nodeType: TravNodeType)

  /** `struct traversal_name`: a traversal with its node table. */
  datatype TraversalName = TraversalName(name: string, nodes: seq<TraversalNode>)

  /** `trav_node_type_name`: the spelling of a handling mode in a traversal
      description, always `trav` followed by the mode; reading it back gives
      the mode again. */
  function TravNodeTypeName(t: TravNodeType): (r: string)
    ensures |r| >= 8 && r[..4] == "trav"
    ensures TravNodeTypeOfName(r) == Some(t)
  {
    match t
    case TntUser => "travuser"
    case TntSons => "travsons"
    case TntError => "traverror"
    case TntNone => "travnone"
  }

  /** The C value of each enumerator, in declaration order from 0. */
  function TravNodeTypeCode(t: TravNodeType): (r: nat)
    ensures r < 4
  {
    match t
    case TntUser => 0
    case TntSons => 1
    case TntError => 2
    case TntNone => 3
  }

  /** The enumerator with C value `code`, if any. */
  function TravNodeTypeOfCode(code: int): (r: Option<TravNodeType>)
    ensures r.Some? <==> 0 <= code < 4
    ensures r.Some? ==> TravNodeTypeCode(r.value) == code
  {
    if code == 0 then Some(TntUser)
    else if code == 1 then Some(TntSons)
    else if code == 2 then Some(TntError)
    else if code == 3 then Some(TntNone)
    else None
  }

  /** `trav_node_type_name` applied to an arbitrary C value: the `default`
      branch is an assertion failure, modelled as `None`. */
  function TravNodeTypeNameOfCode(code: int): (r: Option<string>)
    ensures r.None? <==> code < 0 || 4 <= code
    ensures r.Some? ==> exists t :: TravNodeTypeCode(t) == code && r.value == TravNodeTypeName(t)
  {
    match TravNodeTypeOfCode(code)
    case None => None
    case Some(t) => Some(TravNodeTypeName(t))
  }

  /** Reading a name back: the inverse of `trav_node_type_name`. */
  function TravNodeTypeOfName(s: string): Option<TravNodeType>
  {
    if s == "travuser" then Some(TntUser)
    else if s == "travsons" then Some(TntSons)
    else if s == "traverror" then Some(TntError)
    else if s == "travnone" then Some(TntNone)
    else None
  }

  /** Every name maps back to its enumerator, and only the four names map
      to one: so `trav_node_type_name` is injective. */
  lemma TravNodeTypeNameRoundTrip(t: TravNodeType, s: string)
    ensures TravNodeTypeOfName(TravNodeTypeName(t)) == Some(t)
    ensures TravNodeTypeOfName(s) == Some(t) ==> TravNodeTypeName(t) == s
  {
    assert "travuser" != "travsons" && "travuser" != "traverror" && "travuser" != "travnone";
    assert "travsons" != "traverror" && "travsons" != "travnone";
    assert "traverror" != "travnone";
  }

  lemma TravNodeTypeNameInjective(a: TravNodeType, b: TravNodeType)
    ensures TravNodeTypeName(a) == TravNodeTypeName(b) ==> a == b
  {
    TravNodeTypeNameRoundTrip(a, TravNodeTypeName(a));
    TravNodeTypeNameRoundTrip(b, TravNodeTypeName(b));
  }

  /** The C values of the enumerators round-trip. */
  lemma TravNodeTypeCodeRoundTrip(t: TravNodeType)
    ensures TravNodeTypeOfCode(TravNodeTypeCode(t)) == Some(t)
  {
  }
}
