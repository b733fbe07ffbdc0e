/**
 The scanner for emit statements follows statement lists only: it does not look into else branches,
 unbraced bodies or any statement kind it does not name. How many emits it misses is exact here.
 */
module EmitScan {
  import opened SyntaxTree
  import opened MockScan

  /** node?.statements || [] */
  function Statements(node: Node): seq<Node> {
    var list := Prop(node, "statements");
    if list.Arr? then list.elems else []
  }

  /** The path from a statement to the statement list the scanner goes on with. */
  function ScannedPath(statement: Node): seq<string> {
    if HasType(statement, "IfStatement") then ["trueBody", "statements"]
    else if HasType(statement, "Block") then ["statements"]
    else if HasType(statement, "ForStatement") || HasType(statement, "WhileStatement")
            || HasType(statement, "DoWhileStatement") then ["body", "statements"]
    else []
  }

  function Target(node: Node, path: seq<string>): seq<Node>
    decreases |path|
  {
    if path == [] then if node.Arr? then node.elems else []
    else Target(Prop(node, path[0]), path[1..])
  }

  function Scanned(statement: Node): seq<Node> {
    if ScannedPath(statement) == [] then [] else Target(statement, ScannedPath(statement))
  }

  predicate IsEmit(node: Node) {
    HasType(node, "EmitStatement")
  }

  lemma {:induction false} TargetIsSmaller(node: Node, path: seq<string>)
    ensures TotalSize(Target(node, path)) <= Size(node)
    ensures path != [] ==> TotalSize(Target(node, path)) < Size(node) || Target(node, path) == []
    decreases |path|
  {
    if path != [] {
      TargetIsSmaller(Prop(node, path[0]), path[1..]);
      if node.Obj? {
        PropIsSmaller(node, path[0]);
      }
    }
  }

  /** The emit statements the scanner returns, in order. */
  function Emits(statements: seq<Node>): seq<Node>
    decreases TotalSize(statements), |statements|
  {
    if statements == [] then []
    else
      SplitSize(statements);
      TargetIsSmaller(statements[0], ScannedPath(statements[0]));
      (if IsEmit(statements[0]) then [statements[0]] else Emits(Scanned(statements[0])))
      + Emits(statements[1..])
  }

  /** Every emit statement anywhere in a tree, in preorder. */
  function AllEmits(nodes: seq<Node>): seq<Node>
    decreases TotalSize(nodes), |nodes|
  {
    if nodes == [] then []
    else
      SplitSize(nodes);
      (if IsEmit(nodes[0]) then [nodes[0]] else []) + AllEmits(Children(nodes[0])) + AllEmits(nodes[1..])
  }

  // ---------------------------------------------------------------------------------------------
  // The scanner
  // ---------------------------------------------------------------------------------------------

  lemma {:induction false} EmitsConcat(a: seq<Node>, b: seq<Node>)
    ensures Emits(a + b) == Emits(a) + Emits(b)
    decreases |a|
  {
    hide IsEmit, Scanned;
    if a == [] {
      assert a + b == b;
    } else {
      EmitsConcat(a[1..], b);
      assert (a + b)[0] == a[0] && (a + b)[1..] == a[1..] + b;
    }
  }

  lemma NextEmits(nodes: seq<Node>, k: nat)
    requires k < |nodes|
    ensures Emits(nodes[..0]) == []
    ensures Emits(nodes[..k + 1]) ==
      Emits(nodes[..k]) + if IsEmit(nodes[k]) then [nodes[k]] else Emits(Scanned(nodes[k]))
  {
    assert nodes[..k + 1] == nodes[..k] + [nodes[k]];
    EmitsConcat(nodes[..k], [nodes[k]]);
    assert [nodes[k]][1..] == [];
  }

  lemma ScannedIsSmaller(nodes: seq<Node>, k: nat)
    requires k < |nodes|
    ensures TotalSize(Scanned(nodes[k])) < TotalSize(nodes) || (Scanned(nodes[k]) == [] && TotalSize([]) == 0)
  {
    MemberSize(nodes, k);
    TargetIsSmaller(nodes[k], ScannedPath(nodes[k]));
  }

  lemma ScannedCases(statement: Node)
    ensures HasType(statement, "IfStatement") ==> Scanned(statement) == Statements(Prop(statement, "trueBody"))
    ensures HasType(statement, "Block") ==> Scanned(statement) == Statements(statement)
    ensures
      HasType(statement, "ForStatement") || HasType(statement, "WhileStatement")
      || HasType(statement, "DoWhileStatement") ==>
        Scanned(statement) == Statements(Prop(statement, "body"))
    ensures ScannedPath(statement) == [] ==> Scanned(statement) == []
  {
    TargetIsStatements(statement);
    TargetUnderKey(statement, "trueBody");
    TargetUnderKey(statement, "body");
  }

  lemma TargetIsStatements(node: Node)
    ensures Target(node, ["statements"]) == Statements(node)
  {
  }

  lemma TargetUnderKey(node: Node, key: string)
    ensures Target(node, [key, "statements"]) == Statements(Prop(node, key))
  {
    assert [key, "statements"][1..] == ["statements"];
    TargetIsStatements(Prop(node, key));
  }

  lemma NoEmits()
    ensures Emits([]) == []
  {
  }

  method FindEmitStatements(statements: seq<Node>) returns (emits: seq<Node>)
    ensures emits == Emits(statements)
    decreases TotalSize(statements), |statements|
  {
    hide Emits, Scanned, TotalSize;
    emits := [];
    NoEmits();
    assert statements[..0] == [];
    for i := 0 to |statements|
      invariant emits == Emits(statements[..i])
    {
      var statement := statements[i];
      NextEmits(statements, i);
      ScannedIsSmaller(statements, i);
      ScannedCases(statement);
      NoEmits();
      if HasType(statement, "EmitStatement") {
        emits := emits + [statement];
      } else if HasType(statement, "IfStatement") {
        var inner := FindEmitStatements(Statements(Prop(statement, "trueBody")));
        emits := emits + inner;
      } else if HasType(statement, "Block") {
        var inner := FindEmitStatements(Statements(statement));
        emits := emits + inner;
      } else if HasType(statement, "ForStatement") || HasType(statement, "WhileStatement")
                || HasType(statement, "DoWhileStatement") {
        var inner := FindEmitStatements(Statements(Prop(statement, "body")));
        emits := emits + inner;
      }
    }
    assert statements[..|statements|] == statements;
  }

  // ---------------------------------------------------------------------------------------------
  // What it misses
  // ---------------------------------------------------------------------------------------------

  function IndexOf(fields: seq<Field>, key: string): (i: nat)
    ensures i <= |fields|
    ensures i < |fields| ==> fields[i].key == key && Lookup(fields, key) == fields[i].value
    ensures i == |fields| ==> Lookup(fields, key) == Undefined
  {
    if fields == [] then 0
    else if fields[0].key == key then 0
    else 1 + IndexOf(fields[1..], key)
  }

  /** The number of emits in `node` that lie off the path: on another field, or where the path breaks off. */
  function OffPath(node: Node, path: seq<string>): nat
    decreases |path|
  {
    if path == [] then if node.Arr? then 0 else |AllEmits([node])|
    else if !node.Obj? || IndexOf(node.fields, path[0]) == |node.fields| then |AllEmits([node])|
    else
      var i := IndexOf(node.fields, path[0]);
      (if IsEmit(node) then 1 else 0)
      + |AllEmits(Values(node.fields)[..i])| + |AllEmits(Values(node.fields)[i + 1..])|
      + OffPath(node.fields[i].value, path[1..])
  }

  /** The emits the scanner misses: those off its path, and those it misses further down. */
  function Missed(statements: seq<Node>): nat
    decreases TotalSize(statements), |statements|
  {
    if statements == [] then 0
    else
      var s := statements[0];
      SplitSize(statements);
      TargetIsSmaller(s, ScannedPath(s));
      (if IsEmit(s) then |AllEmits(Children(s))|
       else if ScannedPath(s) == [] then |AllEmits([s])|
       else OffPath(s, ScannedPath(s)) + Missed(Scanned(s)))
      + Missed(statements[1..])
  }

  lemma {:induction false} AllEmitsConcat(a: seq<Node>, b: seq<Node>)
    ensures AllEmits(a + b) == AllEmits(a) + AllEmits(b)
    decreases |a|
  {
    hide IsEmit, Children;
    if a == [] {
      assert a + b == b;
    } else {
      AllEmitsConcat(a[1..], b);
      assert (a + b)[0] == a[0] && (a + b)[1..] == a[1..] + b;
    }
  }

  lemma AllEmitsOfOne(node: Node)
    ensures AllEmits([node]) == (if IsEmit(node) then [node] else []) + AllEmits(Children(node))
  {
  }

  lemma AllEmitsAround(nodes: seq<Node>, i: nat)
    requires i < |nodes|
    ensures AllEmits(nodes) == AllEmits(nodes[..i]) + AllEmits([nodes[i]]) + AllEmits(nodes[i + 1..])
  {
    hide *;
    assert nodes == nodes[..i] + ([nodes[i]] + nodes[i + 1..]);
    AllEmitsConcat(nodes[..i], [nodes[i]] + nodes[i + 1..]);
    AllEmitsConcat([nodes[i]], nodes[i + 1..]);
  }

  /** The emits of a node are those off the path and those in the list the path leads to. */
  lemma {:induction false} PathSplits(node: Node, path: seq<string>)
    ensures |AllEmits([node])| == OffPath(node, path) + |AllEmits(Target(node, path))|
    ensures OffPath(node, path) == 0 ==> AllEmits([node]) == AllEmits(Target(node, path))
    decreases |path|
  {
    hide AllEmits;
    AllEmitsOfOne(node);
    NoEmitsAtAll();
    if path == [] {
    } else if !node.Obj? || IndexOf(node.fields, path[0]) == |node.fields| {
      NothingThere(path[1..]);
    } else {
      var i := IndexOf(node.fields, path[0]);
      PathSplits(node.fields[i].value, path[1..]);
      AllEmitsAround(Values(node.fields), i);
    }
  }

  lemma NoEmitsAtAll()
    ensures AllEmits([]) == []
  {
  }

  lemma {:induction false} NothingThere(path: seq<string>)
    ensures Target(Undefined, path) == []
    decreases |path|
  {
    if path != [] {
      NothingThere(path[1..]);
    }
  }

  lemma FirstStatement(statements: seq<Node>)
    requires statements != []
    ensures
      var s := statements[0];
      && Emits(statements) == (if IsEmit(s) then [s] else Emits(Scanned(s))) + Emits(statements[1..])
      && Missed(statements) == Missed(statements[1..]) +
           (if IsEmit(s) then |AllEmits(Children(s))|
            else if ScannedPath(s) == [] then |AllEmits([s])|
            else OffPath(s, ScannedPath(s)) + Missed(Scanned(s)))
  {
  }

  lemma ScannedNone(s: Node)
    ensures if ScannedPath(s) == [] then Scanned(s) == [] && Emits(Scanned(s)) == []
            else Scanned(s) == Target(s, ScannedPath(s))
  {
  }

  lemma NothingMissed()
    ensures Emits([]) == [] && AllEmits([]) == [] && Missed([]) == 0
  {
  }

  /** Every emit statement of a body is either returned or counted as missed. */
  lemma {:induction false} FoundOrMissed(statements: seq<Node>)
    ensures |AllEmits(statements)| == |Emits(statements)| + Missed(statements)
    ensures Missed(statements) == 0 ==> AllEmits(statements) == Emits(statements)
    decreases TotalSize(statements), |statements|
  {
    hide *;
    NothingMissed();
    if statements != [] {
      var s := statements[0];
      FirstStatement(statements);
      SplitSize(statements);
      FoundOrMissed(statements[1..]);
      AllEmitsAround(statements, 0);
      assert statements[..0] == [];
      NoEmitsAtAll();
      AllEmitsOfOne(s);
      ScannedNone(s);
      if !IsEmit(s) && ScannedPath(s) != [] {
        PathSplits(s, ScannedPath(s));
        ScannedIsSmaller(statements, 0);
        FoundOrMissed(Scanned(s));
      }
    }
  }

  /** The generator sees all emit statements of a function, in order, exactly when none is off its paths. */
  lemma EmitsCompleteIffNoneMissed(statements: seq<Node>)
    ensures Emits(statements) == AllEmits(statements) <==> Missed(statements) == 0
  {
    FoundOrMissed(statements);
  }
}
