/** What each scanner makes of one statement or expression, by the types its nodes bear in the tree. */
module ScannerCases {
  import opened SyntaxTree
  import opened MockScan
  import opened EmitScan

  // ---------------------------------------------------------------------------------------------
  // Reading a tree node by node
  // ---------------------------------------------------------------------------------------------

  lemma {:induction false} FirstProp(a: Field, more: seq<Field>, key: string)
    ensures Prop(Obj([a] + more), key) == if a.key == key then a.value else Prop(Obj(more), key)
  {
    assert ([a] + more)[1..] == more;
  }

  lemma ThreeProps(a: Field, b: Field, c: Field)
    requires a.key != b.key && b.key != c.key && a.key != c.key
    ensures
      var node := Obj([a, b, c]);
      && Prop(node, a.key) == a.value && Prop(node, b.key) == b.value && Prop(node, c.key) == c.value
      && forall key :: key != a.key && key != b.key && key != c.key ==> Prop(node, key) == Undefined
  {
    hide Prop;
    assert [a, b, c] == [a] + ([b] + [c]) && [c] + [] == [c];
    forall key
      ensures Prop(Obj([a, b, c]), key) ==
        if key == a.key then a.value else if key == b.key then b.value else if key == c.key then c.value else Undefined
    {
      FirstProp(a, [b] + [c], key);
      FirstProp(b, [c], key);
      FirstProp(c, [], key);
      NoProps(key);
    }
  }

  lemma NoProps(key: string)
    ensures Prop(Obj([]), key) == Undefined
  {
  }

  // What the scanners find, node by node.

  lemma FoundInOne(node: Node)
    ensures Increments([node]) == if IsIncrement(node) then [IncrementName(node)] else Increments(Children(node))
    ensures MemberReads([node]) == MemberRead(node) + MemberReads(Children(node))
  {
    IncrementsOfOne(node);
    ReadsOfOne(node);
  }

  lemma {:induction false} FoundInMore(node: Node, more: seq<Node>)
    ensures Increments([node] + more) == Increments([node]) + Increments(more)
    ensures MemberReads([node] + more) == MemberReads([node]) + MemberReads(more)
  {
    IncrementsConcat([node], more);
    MemberReadsConcat([node], more);
  }

  ghost predicate Quiet(node: Node) {
    Increments([node]) == [] && MemberReads([node]) == []
  }

  lemma {:induction false} QuietList(nodes: seq<Node>)
    requires forall node :: node in nodes ==> Quiet(node)
    ensures Increments(nodes) == [] && MemberReads(nodes) == []
  {
    if nodes != [] {
      QuietList(nodes[1..]);
      FoundInMore(nodes[0], nodes[1..]);
      assert nodes == [nodes[0]] + nodes[1..];
      assert Quiet(nodes[0]);
    }
  }

  lemma QuietNode(node: Node)
    requires !IsIncrement(node) && MemberRead(node) == []
    requires forall child :: child in Children(node) ==> Quiet(child)
    ensures Quiet(node)
  {
    FoundInOne(node);
    QuietList(Children(node));
  }

  lemma QuietString(text: string)
    ensures Quiet(Str(text))
  {
    QuietNode(Str(text));
  }

  /** An object with one property, and that is not its type. */
  lemma QuietObject(key: string, value: Node)
    requires key != "type" && Quiet(value)
    ensures Quiet(Obj([Field(key, value)]))
  {
    hide Quiet;
    var fields := [Field(key, value)];
    assert Lookup(fields, "type") == Lookup(fields[1..], "type") == Undefined;
    QuietNode(Obj(fields));
  }

  // ---------------------------------------------------------------------------------------------
  // Unary operations
  // ---------------------------------------------------------------------------------------------

  /** An expression of some kind that has a member name. */
  function MemberOf(kind: string, name: string): Node {
    Obj([Field("type", Str(kind)), Field("memberName", Str(name))])
  }

  function Operation(t: string, op: string, operand: Node): Node {
    Obj([Field("type", Str(t)), Field("operator", Str(op)), Field("subExpression", operand)])
  }

  lemma PropsOfMemberOf(kind: string, name: string)
    ensures Prop(MemberOf(kind, name), "type") == Str(kind) && Prop(MemberOf(kind, name), "memberName") == Str(name)
    ensures Quiet(MemberOf(kind, name))
  {
    hide Quiet;
    var first, second := Field("type", Str(kind)), Field("memberName", Str(name));
    var node := MemberOf(kind, name);
    assert node == Obj([first] + [second]);
    forall key
      ensures Prop(node, key) ==
        if key == "type" then Str(kind) else if key == "memberName" then Str(name) else Undefined
    {
      FirstProp(first, [second], key);
      FirstProp(second, [], key);
      assert [second] + [] == [second];
      NoProps(key);
    }
    QuietString(kind);
    QuietString(name);
    QuietNode(node);
  }

  /** Of all unary operations on all expressions, only `++` on a member access is a counter increment. */
  lemma IncrementsOfOperation(t: string, op: string, kind: string, name: string)
    ensures Increments([Operation(t, op, MemberOf(kind, name))]) ==
      if t == "UnaryOperation" && op == "++" && kind == "MemberAccess" then [name] else []
    ensures MemberReads([Operation(t, op, MemberOf(kind, name))]) == []
  {
    hide Increments, MemberReads, Quiet, MemberOf;
    var node := Operation(t, op, MemberOf(kind, name));
    ThreeProps(node.fields[0], node.fields[1], node.fields[2]);
    PropsOfMemberOf(kind, name);
    FoundInOne(node);
    QuietString(t);
    QuietString(op);
    QuietList(Children(node));
  }

  // ---------------------------------------------------------------------------------------------
  // Variable declarations
  // ---------------------------------------------------------------------------------------------

  function VariableNamed(name: string): Node {
    Obj([Field("name", Str(name))])
  }

  function DeclarationOf(t: string, variables: seq<Node>, value: Node): Node {
    Obj([Field("type", Str(t)), Field("variables", Arr(variables)), Field("initialValue", value)])
  }

  /**
   Of all statements on all expressions, only the declaration of a named variable from a member access pairs a
   counter with an id, and of several variables it is the first one.
   */
  lemma ReadsOfDeclaration(t: string, kind: string, name: string, x: string, others: seq<string>)
    ensures
      var variables := [VariableNamed(x)] + NamedAll(others);
      MemberReads([DeclarationOf(t, variables, MemberOf(kind, name))]) ==
        if t == "VariableDeclarationStatement" && kind == "MemberAccess" && x != "" && name != ""
        then [Assignment(name, x)] else []
    ensures Increments([DeclarationOf(t, [VariableNamed(x)] + NamedAll(others), MemberOf(kind, name))]) == []
    ensures MemberReads([DeclarationOf(t, [], MemberOf(kind, name))]) == []
  {
    hide Increments, MemberReads, Quiet, MemberOf;
    var variables := [VariableNamed(x)] + NamedAll(others);
    ReadsOfVariables(t, variables, kind, name);
    ReadsOfVariables(t, [], kind, name);
  }

  function NamedAll(names: seq<string>): (nodes: seq<Node>)
    ensures |nodes| == |names| && forall i :: 0 <= i < |names| ==> nodes[i] == VariableNamed(names[i])
  {
    seq(|names|, i requires 0 <= i < |names| => VariableNamed(names[i]))
  }

  lemma {:induction false} QuietVariables(variables: seq<Node>)
    requires forall v :: v in variables ==> exists x :: v == VariableNamed(x)
    ensures Quiet(Arr(variables))
  {
    hide Quiet, VariableNamed;
    forall v | v in variables
      ensures Quiet(v)
    {
      var x :| v == VariableNamed(x);
      QuietVariable(x);
    }
    QuietNode(Arr(variables));
  }

  lemma QuietVariable(x: string)
    ensures Quiet(VariableNamed(x))
  {
    hide Quiet;
    QuietString(x);
    QuietObject("name", Str(x));
  }

  lemma {:induction false} ReadsOfVariables(t: string, variables: seq<Node>, kind: string, name: string)
    requires forall v :: v in variables ==> exists x :: v == VariableNamed(x)
    ensures MemberReads([DeclarationOf(t, variables, MemberOf(kind, name))]) ==
      MemberRead(DeclarationOf(t, variables, MemberOf(kind, name)))
    ensures Increments([DeclarationOf(t, variables, MemberOf(kind, name))]) == []
    ensures
      var node := DeclarationOf(t, variables, MemberOf(kind, name));
      && HasType(node, t) && Prop(node, "variables") == Arr(variables)
      && Prop(node, "initialValue") == MemberOf(kind, name)
      && Prop(MemberOf(kind, name), "type") == Str(kind) && Prop(MemberOf(kind, name), "memberName") == Str(name)
  {
    hide Increments, MemberReads, Quiet, MemberOf, MemberRead, VariableNamed;
    var node := DeclarationOf(t, variables, MemberOf(kind, name));
    ThreeProps(node.fields[0], node.fields[1], node.fields[2]);
    PropsOfMemberOf(kind, name);
    FoundInOne(node);
    QuietString(t);
    QuietVariables(variables);
    QuietList(Children(node));
  }

  // ---------------------------------------------------------------------------------------------
  // Statements
  // ---------------------------------------------------------------------------------------------

  function BlockOf(statements: seq<Node>): Node {
    Obj([Field("statements", Arr(statements))])
  }

  /** A statement of some type with everything any type of statement may have: two branches, a list and a body. */
  function StatementOf(t: string, a: seq<Node>, b: seq<Node>, c: seq<Node>, d: seq<Node>): Node {
    Obj([Field("type", Str(t)), Field("trueBody", BlockOf(a)), Field("falseBody", BlockOf(b)),
         Field("statements", Arr(c)), Field("body", BlockOf(d))])
  }

  /** The scanner takes an emit itself, and goes on with one list of an if, a block or a loop, and with no other. */
  lemma {:induction false} EmitsOfStatement(t: string, a: seq<Node>, b: seq<Node>, c: seq<Node>, d: seq<Node>)
    ensures
      var statement := StatementOf(t, a, b, c, d);
      Emits([statement]) ==
        if t == "EmitStatement" then [statement]
        else if t == "IfStatement" then Emits(a)
        else if t == "Block" then Emits(c)
        else if t == "ForStatement" || t == "WhileStatement" || t == "DoWhileStatement" then Emits(d)
        else []
  {
    hide Emits, Scanned;
    var statement := StatementOf(t, a, b, c, d);
    PropsOfStatement(t, a, b, c, d);
    NextEmits([statement], 0);
    assert [statement][..1] == [statement];
    ScannedCases(statement);
    NoEmits();
  }

  lemma {:induction false} PropsOfStatement(t: string, a: seq<Node>, b: seq<Node>, c: seq<Node>, d: seq<Node>)
    ensures
      var statement := StatementOf(t, a, b, c, d);
      && Prop(statement, "type") == Str(t) && Statements(statement) == c
      && Statements(Prop(statement, "trueBody")) == a && Statements(Prop(statement, "body")) == d
  {
    hide Prop;
    var fields := StatementOf(t, a, b, c, d).fields;
    var bodies := [fields[3]] + [fields[4]];
    var rest := [fields[1]] + ([fields[2]] + bodies);
    assert fields == [fields[0]] + rest && [fields[4]] + [] == [fields[4]];
    forall key | key in ["type", "trueBody", "statements", "body"]
      ensures Prop(StatementOf(t, a, b, c, d), key) ==
        if key == "type" then Str(t) else if key == "trueBody" then BlockOf(a)
        else if key == "statements" then Arr(c) else BlockOf(d)
    {
      FirstProp(fields[0], rest, key);
      FirstProp(fields[1], [fields[2]] + bodies, key);
      FirstProp(fields[2], bodies, key);
      FirstProp(fields[3], [fields[4]], key);
      FirstProp(fields[4], [], key);
    }
    StatementsOfBlock(a);
    StatementsOfBlock(d);
  }

  lemma {:induction false} StatementsOfBlock(statements: seq<Node>)
    ensures Statements(BlockOf(statements)) == statements
  {
  }

  // ---------------------------------------------------------------------------------------------
  // The statements of a function that hands out ids
  // ---------------------------------------------------------------------------------------------

  function PlusPlus(counter: string): Node {
    Operation("UnaryOperation", "++", MemberOf("MemberAccess", counter))
  }

  /** $.counter++; */
  function Increment(counter: string): Node {
    Obj([Field("type", Str("ExpressionStatement")), Field("expression", PlusPlus(counter))])
  }

  /** uint256 x = $.counter; */
  function ReadInto(x: string, counter: string): Node {
    DeclarationOf("VariableDeclarationStatement", [VariableNamed(x)], MemberOf("MemberAccess", counter))
  }

  /** emit E(...); */
  function EmitOf(event: string): Node {
    Obj([Field("type", Str("EmitStatement")),
         Field("eventCall", Obj([Field("expression", Obj([Field("name", Str(event))]))]))])
  }

  lemma PropsOfIncrement(counter: string)
    ensures Prop(Increment(counter), "type") == Str("ExpressionStatement")
  {
  }

  lemma FoundInIncrement(counter: string)
    ensures Increments([Increment(counter)]) == [counter] && MemberReads([Increment(counter)]) == []
  {
    hide Increments, MemberReads, Operation, MemberOf;
    var node, kind := Increment(counter), Str("ExpressionStatement");
    PropsOfIncrement(counter);
    FoundInOne(node);
    QuietString("ExpressionStatement");
    IncrementsOfOperation("UnaryOperation", "++", "MemberAccess", counter);
    FoundInMore(kind, [PlusPlus(counter)]);
    assert Children(node) == [kind] + [PlusPlus(counter)];
  }

  lemma FoundInRead(x: string, counter: string)
    requires x != "" && counter != ""
    ensures Increments([ReadInto(x, counter)]) == [] && MemberReads([ReadInto(x, counter)]) == [Assignment(counter, x)]
  {
    hide Increments, MemberReads, DeclarationOf, MemberOf;
    ReadsOfDeclaration("VariableDeclarationStatement", "MemberAccess", counter, x, []);
    assert [VariableNamed(x)] + NamedAll([]) == [VariableNamed(x)];
  }

  lemma QuietEmit(event: string)
    ensures Quiet(EmitOf(event))
  {
    hide Quiet;
    QuietString(event);
    QuietString("EmitStatement");
    var name := Obj([Field("name", Str(event))]);
    QuietObject("name", Str(event));
    QuietObject("expression", name);
    QuietNode(EmitOf(event));
  }

  lemma {:induction false} FoundInPair(id: Assignment, rest: seq<Node>)
    requires id.idVar != "" && id.counterVar != ""
    ensures
      var nodes := [Increment(id.counterVar)] + ([ReadInto(id.idVar, id.counterVar)] + rest);
      Increments(nodes) == [id.counterVar] + Increments(rest) && MemberReads(nodes) == [id] + MemberReads(rest)
  {
    hide *;
    FoundInIncrement(id.counterVar);
    FoundInRead(id.idVar, id.counterVar);
    FoundInMore(ReadInto(id.idVar, id.counterVar), rest);
    FoundInMore(Increment(id.counterVar), [ReadInto(id.idVar, id.counterVar)] + rest);
    assert [] + Increments(rest) == Increments(rest);
    assert [] + ([id] + MemberReads(rest)) == [id] + MemberReads(rest);
  }

  lemma EmitsOfOthers(x: string, counter: string)
    ensures !IsEmit(Increment(counter)) && Scanned(Increment(counter)) == []
    ensures !IsEmit(ReadInto(x, counter)) && Scanned(ReadInto(x, counter)) == []
    ensures IsEmit(EmitOf(x))
  {
  }

  lemma {:induction false} NoEmitIn(statement: Node, rest: seq<Node>)
    requires !IsEmit(statement) && Scanned(statement) == []
    ensures Emits([statement] + rest) == Emits(rest)
  {
    hide IsEmit, Scanned, Emits;
    NoEmits();
    EmitsConcat([statement], rest);
    NextEmits([statement], 0);
    assert [statement][..1] == [statement];
  }
}
