/**
 Two scanners of the mock generator: counter increments, and ids assigned from counters. Each is a
 recursive loop that pushes to an array; each is proved against a function that reads the tree once,
 from left to right. The scanner for emit statements is in EmitScan.
 */
module MockScan {
  import opened Lists
  import opened SyntaxTree

  /** The text of a name; the parser gives every name the scanners read as a string. */
  function Text(node: Node): string {
    if node.Str? then node.s else "undefined"
  }

  // ---------------------------------------------------------------------------------------------
  // Counter increments
  // ---------------------------------------------------------------------------------------------

  /** x.m++ */
  predicate IsIncrement(node: Node) {
    HasType(node, "UnaryOperation") && Prop(node, "operator") == Str("++")
    && HasType(Prop(node, "subExpression"), "MemberAccess")
  }

  function IncrementName(node: Node): string {
    Text(Prop(Prop(node, "subExpression"), "memberName"))
  }

  /** The member names of all increments not nested under another one, in preorder, repeats and all. */
  function Increments(nodes: seq<Node>): seq<string>
    decreases TotalSize(nodes), |nodes|
  {
    if nodes == [] then []
    else if IsIncrement(nodes[0]) then [IncrementName(nodes[0])] + Increments(nodes[1..])
    else
      SplitSize(nodes);
      Increments(Children(nodes[0])) + Increments(nodes[1..])
  }

  lemma SplitSize(nodes: seq<Node>)
    requires nodes != []
    ensures TotalSize(nodes) == Size(nodes[0]) + TotalSize(nodes[1..])
    ensures TotalSize(Children(nodes[0])) < Size(nodes[0]) || (nodes[0] == Undefined && Children(nodes[0]) == [])
  {
    ChildrenSize(nodes[0]);
  }

  lemma ChildrenSize(node: Node)
    ensures TotalSize(Children(node)) < Size(node) || (node == Undefined && Children(node) == [])
  {
    if node.Obj? {
      ValuesSize(node.fields);
    }
  }

  lemma {:induction false} ValuesSize(fields: seq<Field>)
    ensures TotalSize(Values(fields)) == FieldsSize(fields)
  {
    if fields != [] {
      ValuesSize(fields[1..]);
      assert Values(fields)[1..] == Values(fields[1..]);
    }
  }

  lemma {:induction false} IncrementsConcat(a: seq<Node>, b: seq<Node>)
    ensures Increments(a + b) == Increments(a) + Increments(b)
    decreases |a|
  {
    hide IsIncrement, IncrementName, Children;
    if a == [] {
      assert a + b == b;
    } else {
      IncrementsConcat(a[1..], b);
      assert (a + b)[0] == a[0] && (a + b)[1..] == a[1..] + b;
    }
  }

  lemma IncrementsOfOne(node: Node)
    ensures Increments([node]) == if IsIncrement(node) then [IncrementName(node)] else Increments(Children(node))
  {
  }

  /** Passing an array's elements instead of the array, or skipping a value that is no object, misses nothing. */
  lemma IncrementsOfChild(child: Node)
    ensures Increments([child]) == if IsObject(child) then Increments(AsList(child)) else []
  {
  }

  /**
   Duplicates are removed at every level of the recursion, yet the result is one removal of
   duplicates from the whole preorder; and the recursion ends on every tree.
   */
  method FindCounterOperators(nodes: seq<Node>) returns (names: seq<string>)
    ensures names == Dedup(Increments(nodes))
    decreases TotalSize(nodes)
  {
    hide *;
    var found: seq<string> := [];
    NoneYet(nodes);
    for i := 0 to |nodes|
      invariant Dedup(found) == Dedup(Increments(nodes[..i]))
    {
      var node := nodes[i];
      ghost var before := found;
      if IsIncrement(node) {
        found := found + [IncrementName(node)];
      } else {
        var children := Children(node);
        NoneYet(children);
        assert before + [] == before;
        for k := 0 to |children|
          invariant Dedup(found) == Dedup(before + Increments(children[..k]))
        {
          var child := children[k];
          ghost var stands := before + Increments(children[..k]);
          NextChild(children, k);
          IncrementsOfChild(child);
          assert stands + Increments([child]) == before + Increments(children[..k + 1]);
          if IsObject(child) {
            ChildIsSmaller(nodes, i, k);
            var inner := FindCounterOperators(AsList(child));
            PushInner(found, stands, Increments(AsList(child)));
            found := found + inner;
          } else {
            assert stands + [] == stands;
          }
        }
        assert children[..|children|] == children;
      }
      IncrementsOfOne(node);
      PushAll(before, Increments(nodes[..i]), Increments([node]));
      NextChild(nodes, i);
    }
    assert nodes[..|nodes|] == nodes;
    names := Dedup(found);
  }

  lemma NoneYet(nodes: seq<Node>)
    ensures Increments(nodes[..0]) == []
  {
  }

  lemma NextChild(nodes: seq<Node>, k: nat)
    requires k < |nodes|
    ensures Increments(nodes[..k + 1]) == Increments(nodes[..k]) + Increments([nodes[k]])
  {
    assert nodes[..k + 1] == nodes[..k] + [nodes[k]];
    IncrementsConcat(nodes[..k], [nodes[k]]);
  }

  /** Pushing a list without duplicates onto one, when both stand for longer lists. */
  lemma PushInner(found: seq<string>, stands: seq<string>, inner: seq<string>)
    requires Dedup(found) == Dedup(stands)
    ensures Dedup(found + Dedup(inner)) == Dedup(stands + inner)
  {
    DedupParts(found, inner);
    PushAll(found, stands, inner);
  }

  lemma PushAll(found: seq<string>, stands: seq<string>, more: seq<string>)
    requires Dedup(found) == Dedup(stands)
    ensures Dedup(found + more) == Dedup(stands + more)
  {
    DedupParts(found, more);
    DedupParts(stands, more);
  }

  // ---------------------------------------------------------------------------------------------
  // Ids assigned from counters
  // ---------------------------------------------------------------------------------------------

  datatype Assignment = Assignment(counterVar: string, idVar: string)

  /** node.variables[0]?.name */
  function FirstVariableName(node: Node): Node {
    var variables := Prop(node, "variables");
    if variables.Arr? && |variables.elems| > 0 then Prop(variables.elems[0], "name") else Undefined
  }

  /** `T x = o.m;` as a pair of m and x, whatever m is; nothing if either name is missing. */
  function MemberRead(node: Node): seq<Assignment> {
    if HasType(node, "VariableDeclarationStatement") && Truthy(Prop(node, "variables"))
       && HasType(Prop(node, "initialValue"), "MemberAccess")
       && Truthy(FirstVariableName(node)) && Truthy(Prop(Prop(node, "initialValue"), "memberName"))
    then [Assignment(Text(Prop(Prop(node, "initialValue"), "memberName")), Text(FirstVariableName(node)))]
    else []
  }

  /** All of them in a tree, in preorder. */
  function MemberReads(nodes: seq<Node>): seq<Assignment>
    decreases TotalSize(nodes), |nodes|
  {
    if nodes == [] then []
    else
      SplitSize(nodes);
      MemberRead(nodes[0]) + MemberReads(Children(nodes[0])) + MemberReads(nodes[1..])
  }

  function FromCounters(pairs: seq<Assignment>, counters: seq<string>): seq<Assignment> {
    if pairs == [] then []
    else
      FromCounters(pairs[..|pairs| - 1], counters)
      + if pairs[|pairs| - 1].counterVar in counters then [pairs[|pairs| - 1]] else []
  }

  lemma {:induction false} FromCountersConcat(a: seq<Assignment>, b: seq<Assignment>, counters: seq<string>)
    ensures FromCounters(a + b, counters) == FromCounters(a, counters) + FromCounters(b, counters)
  {
    if b == [] {
      assert a + b == a;
    } else {
      FromCountersConcat(a, b[..|b| - 1], counters);
      assert (a + b)[..|a + b| - 1] == a + b[..|b| - 1];
    }
  }

  lemma {:induction false} FromCountersIn(pairs: seq<Assignment>, counters: seq<string>)
    ensures forall a :: a in FromCounters(pairs, counters) ==> a.counterVar in counters && a in pairs
  {
    if pairs != [] {
      FromCountersIn(pairs[..|pairs| - 1], counters);
    }
  }

  lemma {:induction false} MemberReadsConcat(a: seq<Node>, b: seq<Node>)
    ensures MemberReads(a + b) == MemberReads(a) + MemberReads(b)
    decreases |a|
  {
    hide MemberRead, Children;
    if a == [] {
      assert a + b == b;
    } else {
      MemberReadsConcat(a[1..], b);
      assert (a + b)[0] == a[0] && (a + b)[1..] == a[1..] + b;
    }
  }

  lemma ReadsOfOne(node: Node)
    ensures MemberReads([node]) == MemberRead(node) + MemberReads(Children(node))
  {
  }

  lemma ReadsOfChild(child: Node)
    ensures MemberReads([child]) == if IsObject(child) then MemberReads(AsList(child)) else []
  {
    ReadsOfOne(child);
  }

  lemma NextRead(nodes: seq<Node>, k: nat)
    requires k < |nodes|
    ensures MemberReads(nodes[..0]) == []
    ensures MemberReads(nodes[..k + 1]) == MemberReads(nodes[..k]) + MemberReads([nodes[k]])
  {
    assert nodes[..k + 1] == nodes[..k] + [nodes[k]];
    MemberReadsConcat(nodes[..k], [nodes[k]]);
  }

  lemma NoReadsYet(nodes: seq<Node>, counters: seq<string>)
    ensures FromCounters(MemberReads(nodes[..0]), counters) == []
  {
  }

  predicate IsCounterRead(node: Node, counters: seq<string>) {
    HasType(node, "VariableDeclarationStatement") && Truthy(Prop(node, "variables"))
    && HasType(Prop(node, "initialValue"), "MemberAccess")
    && Text(Prop(Prop(node, "initialValue"), "memberName")) in counters
  }

  lemma CounterReadIsRead(node: Node, counters: seq<string>)
    ensures FromCounters(MemberRead(node), counters) ==
      if IsCounterRead(node, counters) then MemberRead(node) else []
  {
  }

  /** Filtering at every node during the walk is filtering the whole walk once. */
  method FindCounterIdAssignments(nodes: seq<Node>, counters: seq<string>) returns (found: seq<Assignment>)
    ensures found == FromCounters(MemberReads(nodes), counters)
    decreases TotalSize(nodes)
  {
    hide *;
    found := [];
    NoReadsYet(nodes, counters);
    for i := 0 to |nodes|
      invariant found == FromCounters(MemberReads(nodes[..i]), counters)
    {
      var node := nodes[i];
      ghost var before := found;
      if IsCounterRead(node, counters) {
        found := found + MemberRead(node);
      }
      CounterReadIsRead(node, counters);
      assert before + [] == before;
      ghost var own := found;
      var children := Children(node);
      NoReadsYet(children, counters);
      assert own + [] == own;
      for k := 0 to |children|
        invariant found == own + FromCounters(MemberReads(children[..k]), counters)
      {
        var child := children[k];
        NextRead(children, k);
        ReadsOfChild(child);
        FromCountersConcat(MemberReads(children[..k]), MemberReads([child]), counters);
        if IsObject(child) {
          ChildIsSmaller(nodes, i, k);
          var inner := FindCounterIdAssignments(AsList(child), counters);
          found := found + inner;
        } else {
          NoReads(counters);
        }
      }
      assert children[..|children|] == children;
      ReadsOfOne(node);
      NextRead(nodes, i);
      FromCountersConcat(MemberRead(node), MemberReads(children), counters);
      FromCountersConcat(MemberReads(nodes[..i]), MemberReads([node]), counters);
    }
    assert nodes[..|nodes|] == nodes;
  }

  lemma NoReads(counters: seq<string>)
    ensures FromCounters([], counters) == []
  {
  }
}
