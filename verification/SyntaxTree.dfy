/** Syntax trees as the Solidity parser hands them over: plain JavaScript values. */
module SyntaxTree {
  datatype Node =
    | Undefined
    | Null
    | Bool(b: bool)
    | Number(n: int)
    | Str(s: string)
    | Arr(elems: seq<Node>)
    | Obj(fields: seq<Field>)

  /** A property of an object; objects list theirs in enumeration order. */
  datatype Field = Field(key: string, value: Node)

  /** node?.key */
  function Prop(node: Node, key: string): Node {
    if node.Obj? then Lookup(node.fields, key) else Undefined
  }

  function Lookup(fields: seq<Field>, key: string): Node {
    if fields == [] then Undefined
    else if fields[0].key == key then fields[0].value
    else Lookup(fields[1..], key)
  }

  predicate HasType(node: Node, kind: string) {
    Prop(node, "type") == Str(kind)
  }

  predicate IsObject(node: Node) {
    node.Arr? || node.Obj?
  }

  predicate Truthy(node: Node) {
    match node
    case Undefined => false
    case Null => false
    case Bool(b) => b
    case Number(n) => n != 0
    case Str(s) => s != ""
    case Arr(_) => true
    case Obj(_) => true
  }

  function Values(fields: seq<Field>): (values: seq<Node>)
    ensures |values| == |fields|
    ensures forall i :: 0 <= i < |fields| ==> values[i] == fields[i].value
  {
    seq(|fields|, i requires 0 <= i < |fields| => fields[i].value)
  }

  /** What `for (key in node)` ranges over; the characters of a string hold no object and are left out. */
  function Children(node: Node): seq<Node> {
    match node
    case Arr(elems) => elems
    case Obj(fields) => Values(fields)
    case _ => []
  }

  /** An array stands for its elements, an object for itself: the list the scanners recurse on. */
  function AsList(node: Node): seq<Node> {
    if node.Arr? then node.elems else [node]
  }

  // The size of a tree, for the termination of the scanners.

  function Size(node: Node): nat {
    match node
    case Arr(elems) => 1 + TotalSize(elems)
    case Obj(fields) => 1 + FieldsSize(fields)
    case Undefined => 0
    case _ => 1
  }

  function TotalSize(nodes: seq<Node>): nat {
    if nodes == [] then 0 else Size(nodes[0]) + TotalSize(nodes[1..])
  }

  function FieldsSize(fields: seq<Field>): nat {
    if fields == [] then 0 else Size(fields[0].value) + FieldsSize(fields[1..])
  }

  lemma {:induction false} MemberSize(nodes: seq<Node>, i: nat)
    requires i < |nodes|
    ensures Size(nodes[i]) <= TotalSize(nodes)
    decreases i
  {
    if i > 0 {
      MemberSize(nodes[1..], i - 1);
    }
  }

  lemma {:induction false} FieldSize(fields: seq<Field>, i: nat)
    requires i < |fields|
    ensures Size(fields[i].value) <= FieldsSize(fields)
    decreases i
  {
    if i > 0 {
      FieldSize(fields[1..], i - 1);
    }
  }

  /** Recursing on a child of a listed node makes the list smaller. */
  lemma ChildIsSmaller(nodes: seq<Node>, i: nat, k: nat)
    requires i < |nodes| && k < |Children(nodes[i])|
    ensures TotalSize(AsList(Children(nodes[i])[k])) < TotalSize(nodes)
  {
    var node := nodes[i];
    var child := Children(node)[k];
    MemberSize(nodes, i);
    match node
    case Arr(elems) => MemberSize(elems, k);
    case Obj(fields) => FieldSize(fields, k);
    assert TotalSize([child]) == Size(child) by {
      assert [child][1..] == [];
    }
  }

  lemma {:induction false} PropIsSmaller(node: Node, key: string)
    requires node.Obj?
    ensures Size(Prop(node, key)) < Size(node)
  {
    LookupIsSmaller(node.fields, key);
  }

  lemma {:induction false} LookupIsSmaller(fields: seq<Field>, key: string)
    ensures Size(Lookup(fields, key)) <= FieldsSize(fields)
    decreases |fields|
  {
    if fields != [] && fields[0].key != key {
      LookupIsSmaller(fields[1..], key);
    }
  }
}
