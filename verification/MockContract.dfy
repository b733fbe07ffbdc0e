/** The whole mock contract: all mock functions, and the counters declared as its state variables. */
module MockContract {
  import opened Lists
  import opened Wrappers
  import opened SyntaxTree
  import opened MockScan
  import opened EmitScan
  import opened MockFunctions

  /** The parser's node for a function definition. */
  function AsNode(def: FunctionDef): Node {
    Obj([Field("type", Str("FunctionDefinition"))] + def.before + [Field("body", BodyNode(def))] + def.after)
  }

  function BodyNode(def: FunctionDef): Node {
    match def.body
    case Some(statements) => Obj([Field("type", Str("Block")), Field("statements", Arr(statements))])
    case None => Null
  }

  function AsNodes(defs: seq<FunctionDef>): (nodes: seq<Node>)
    ensures |nodes| == |defs| && forall i :: 0 <= i < |defs| ==> nodes[i] == AsNode(defs[i])
  {
    seq(|defs|, i requires 0 <= i < |defs| => AsNode(defs[i]))
  }

  predicate HaveBodies(defs: seq<FunctionDef>) {
    forall def :: def in defs ==> def.body.Some?
  }

  function Body(def: FunctionDef): seq<Node> {
    match def.body
    case Some(statements) => statements
    case None => []
  }

  /** The counters found function by function; one that occurs in two functions is listed twice. */
  function BodyCounters(defs: seq<FunctionDef>): seq<string> {
    if defs == [] then []
    else BodyCounters(defs[..|defs| - 1]) + Dedup(Increments(Body(defs[|defs| - 1])))
  }

  function BodyAssignments(defs: seq<FunctionDef>, counters: seq<string>): seq<Assignment> {
    if defs == [] then []
    else
      BodyAssignments(defs[..|defs| - 1], counters) + FromCounters(MemberReads(Body(defs[|defs| - 1])), counters)
  }

  /** Public or external functions that may change state. */
  predicate Mocked(def: FunctionDef) {
    def.visibility in ["public", "external"] && def.mutability !in ["view", "pure"]
  }

  function MocksOf(defs: seq<FunctionDef>, c: Context): Option<seq<MockFunction>> {
    if defs == [] then Some([])
    else
      var def := defs[|defs| - 1];
      match MocksOf(defs[..|defs| - 1], c)
      case None => None
      case Some(mocks) =>
        if !Mocked(def) then Some(mocks)
        else
          match MockOf(def, Body(def), c)
          case Throws => None
          case Skipped => Some(mocks)
          case Mock(f) => Some(mocks + [f])
  }

  function ContextOf(defs: seq<FunctionDef>, events: seq<EventDef>, structs: seq<string>): Context {
    Context(events, structs, BodyAssignments(defs, BodyCounters(defs)))
  }

  lemma NextDef(defs: seq<FunctionDef>, i: nat, counters: seq<string>, c: Context)
    requires i < |defs|
    ensures BodyCounters(defs[..i + 1]) == BodyCounters(defs[..i]) + Dedup(Increments(Body(defs[i])))
    ensures BodyAssignments(defs[..i + 1], counters) ==
      BodyAssignments(defs[..i], counters) + FromCounters(MemberReads(Body(defs[i])), counters)
    ensures MocksOf(defs[..i + 1], c) ==
      match MocksOf(defs[..i], c)
      case None => None
      case Some(mocks) =>
        if !Mocked(defs[i]) then Some(mocks)
        else
          match MockOf(defs[i], Body(defs[i]), c)
          case Throws => None
          case Skipped => Some(mocks)
          case Mock(f) => Some(mocks + [f])
  {
    hide Dedup, Increments, FromCounters, MemberReads, MockOf, Mocked;
    assert defs[..i + 1][..i] == defs[..i];
  }

  lemma NoDefs(counters: seq<string>, c: Context, defs: seq<FunctionDef>)
    ensures BodyCounters(defs[..0]) == [] && BodyAssignments(defs[..0], counters) == []
    ensures MocksOf(defs[..0], c) == Some([])
  {
  }

  lemma {:induction false} ThrowsLater(defs: seq<FunctionDef>, k: nat, c: Context)
    requires k <= |defs| && MocksOf(defs[..k], c) == None
    ensures MocksOf(defs, c) == None
  {
    hide MockOf;
    if k < |defs| {
      assert defs[..|defs| - 1][..k] == defs[..k];
      ThrowsLater(defs[..|defs| - 1], k, c);
    } else {
      assert defs[..k] == defs;
    }
  }

  /** A function without a body makes the generator throw before anything is printed. */
  method GenerateMockFunctions(defs: seq<FunctionDef>, events: seq<EventDef>, structs: seq<string>)
    returns (r: Option<seq<MockFunction>>)
    ensures r == if HaveBodies(defs) then MocksOf(defs, ContextOf(defs, events, structs)) else None
  {
    hide BodyCounters, BodyAssignments, MocksOf, MockOf, Dedup, Increments, FromCounters, MemberReads, Mocked, BodyNode;
    var counters: seq<string>, assignments: seq<Assignment>, mocks: seq<MockFunction> := [], [], [];
    NoDefs([], Context([], [], []), defs);
    for i := 0 to |defs|
      invariant HaveBodies(defs[..i]) && counters == BodyCounters(defs[..i])
    {
      if defs[i].body == None {
        assert defs[i] in defs;
        return None;
      }
      var found := FindCounterOperators(Body(defs[i]));
      NextDef(defs, i, [], Context([], [], []));
      counters := counters + found;
    }
    assert defs[..|defs|] == defs;
    NoDefs(counters, Context([], [], []), defs);
    for i := 0 to |defs|
      invariant assignments == BodyAssignments(defs[..i], counters)
    {
      var found := FindCounterIdAssignments(Body(defs[i]), counters);
      NextDef(defs, i, counters, Context([], [], []));
      assignments := assignments + found;
    }
    var c := Context(events, structs, assignments);
    NoDefs(counters, c, defs);
    for i := 0 to |defs|
      invariant MocksOf(defs[..i], c) == Some(mocks)
    {
      NextDef(defs, i, counters, c);
      if Mocked(defs[i]) {
        var g := GenerateMockFunction(defs[i], Body(defs[i]), c);
        match g
        case Throws =>
          ThrowsLater(defs, i + 1, c);
          return None;
        case Skipped =>
        case Mock(f) =>
          mocks := mocks + [f];
      }
    }
    return Some(mocks);
  }

  // ---------------------------------------------------------------------------------------------
  // Counters are closed
  // ---------------------------------------------------------------------------------------------

  /** The counters a mock function increments. */
  function CountersUsed(f: MockFunction): seq<string> {
    UsedIn(f.declarations)
  }

  function UsedIn(ds: seq<Declaration>): seq<string> {
    if ds == [] then []
    else
      UsedIn(ds[..|ds| - 1])
      + match ds[|ds| - 1].form
        case FromCounter(counter) => [counter]
        case _ => []
  }

  /** The counters generateMockCounters declares: one scan of the whole function definitions. */
  function DeclaredCounters(defs: seq<FunctionDef>): (names: seq<string>)
    ensures NoDuplicates(names)
  {
    Dedup(Increments(AsNodes(defs)))
  }

  lemma {:induction false} ContainsChild(nodes: seq<Node>, i: nat, name: string)
    requires i < |nodes| && name in Increments([nodes[i]])
    ensures name in Increments(nodes)
  {
    hide *;
    assert nodes == nodes[..i] + ([nodes[i]] + nodes[i + 1..]);
    IncrementsConcat(nodes[..i], [nodes[i]] + nodes[i + 1..]);
    IncrementsConcat([nodes[i]], nodes[i + 1..]);
  }

  /** A scan of a whole definition meets everything a scan of the body's statements meets. */
  lemma BodyIsScanned(def: FunctionDef, name: string)
    requires name in Increments(Body(def))
    ensures name in Increments([AsNode(def)])
  {
    hide Increments;
    NothingInNoBody();
    var statements := Body(def);
    var list := Arr(statements);
    IncrementsOfOne(list);
    var block := BodyNode(def);
    assert Children(block)[1] == list;
    ContainsChild(Children(block), 1, name);
    IncrementsOfOne(block);
    var k := 1 + |def.before|;
    assert Children(AsNode(def))[k] == block;
    ContainsChild(Children(AsNode(def)), k, name);
    IncrementsOfOne(AsNode(def));
  }

  lemma NothingInNoBody()
    ensures Increments([]) == []
  {
  }

  lemma {:induction false} BodyCountersAreDeclared(defs: seq<FunctionDef>, name: string)
    requires name in BodyCounters(defs)
    ensures name in Increments(AsNodes(defs))
  {
    hide Increments, AsNode;
    var init, last := defs[..|defs| - 1], defs[|defs| - 1];
    assert AsNodes(defs) == AsNodes(init) + [AsNode(last)];
    IncrementsConcat(AsNodes(init), [AsNode(last)]);
    if name in BodyCounters(init) {
      BodyCountersAreDeclared(init, name);
    } else {
      BodyIsScanned(last, name);
    }
  }

  lemma {:induction false} AssignmentsAreFromCounters(defs: seq<FunctionDef>, counters: seq<string>, a: Assignment)
    requires a in BodyAssignments(defs, counters)
    ensures a.counterVar in counters
  {
    hide FromCounters, MemberReads;
    var init := defs[..|defs| - 1];
    FromCountersIn(MemberReads(Body(defs[|defs| - 1])), counters);
    if a in BodyAssignments(init, counters) {
      AssignmentsAreFromCounters(init, counters, a);
    }
  }

  lemma {:induction false} UsedAreAssigned(parameters: seq<Parameter>, c: Context, counters: seq<string>, name: string)
    requires DeclareAll(parameters, c, counters).Some?
    requires name in UsedIn(DeclareAll(parameters, c, counters).value)
    ensures exists a :: a in c.assignments && a.counterVar == name
  {
    hide FirstMatch;
    var init, last := parameters[..|parameters| - 1], parameters[|parameters| - 1];
    var ds := DeclareAll(parameters, c, counters).value;
    assert ds[..|ds| - 1] == DeclareAll(init, c, counters).value;
    if name in UsedIn(ds[..|ds| - 1]) {
      UsedAreAssigned(init, c, counters, name);
    } else {
      var text := TypeText(last.typeName).value;
      assert FormOf(last.name, text, c, counters) == FromCounter(name);
    }
  }

  lemma MockUses(def: FunctionDef, statements: seq<Node>, c: Context, name: string)
    requires MockOf(def, statements, c).Mock? && name in CountersUsed(MockOf(def, statements, c).f)
    ensures exists a :: a in c.assignments && a.counterVar == name
  {
    hide DeclareAll, Fresh, Emits, Increments, Dedup, UsedIn, EventsOf, AllParameters;
    var events := EventsOf(Emits(statements), c.events).value;
    var kept := Fresh(AllParameters(events), ParameterNames(def.parameters));
    UsedAreAssigned(kept, c, Dedup(Increments(statements)), name);
  }

  lemma UsedIsDeclared(
    defs: seq<FunctionDef>, events: seq<EventDef>, structs: seq<string>, def: FunctionDef, name: string)
    requires MockOf(def, Body(def), ContextOf(defs, events, structs)).Mock?
    requires name in CountersUsed(MockOf(def, Body(def), ContextOf(defs, events, structs)).f)
    ensures name in DeclaredCounters(defs)
  {
    hide MockOf, BodyAssignments, BodyCounters, Increments, Dedup, CountersUsed;
    var c := ContextOf(defs, events, structs);
    MockUses(def, Body(def), c, name);
    var a :| a in c.assignments && a.counterVar == name;
    AssignmentsAreFromCounters(defs, BodyCounters(defs), a);
    BodyCountersAreDeclared(defs, name);
  }

  /** The function a mock was generated for. */
  lemma {:induction false} MockOrigin(defs: seq<FunctionDef>, c: Context, f: MockFunction) returns (def: FunctionDef)
    requires MocksOf(defs, c).Some? && f in MocksOf(defs, c).value
    ensures def in defs && Mocked(def) && MockOf(def, Body(def), c) == Mock(f)
  {
    hide MockOf, Mocked;
    var init, last := defs[..|defs| - 1], defs[|defs| - 1];
    if f in MocksOf(init, c).value {
      def := MockOrigin(init, c, f);
    } else {
      def := last;
    }
  }

  /** Every function that is mocked and emits something has its mock. */
  lemma {:induction false} MockIsGenerated(defs: seq<FunctionDef>, c: Context, def: FunctionDef)
    requires MocksOf(defs, c).Some? && def in defs && Mocked(def) && Emits(Body(def)) != []
    ensures MockOf(def, Body(def), c).Mock? && MockOf(def, Body(def), c).f in MocksOf(defs, c).value
  {
    hide Emits, Increments, Dedup, Mocked, EventsOf, TypesSupported, DeclareAll;
    var init, last := defs[..|defs| - 1], defs[|defs| - 1];
    if def != last {
      assert def in init;
      MockIsGenerated(init, c, def);
    }
  }

  /**
   Every counter any generated function increments is among the declared state variables, and is
   declared once, although the two come from scans of different parts of the tree.
   */
  lemma CountersAreClosed(
    defs: seq<FunctionDef>, events: seq<EventDef>, structs: seq<string>, mocks: seq<MockFunction>, f: MockFunction,
    name: string)
    requires MocksOf(defs, ContextOf(defs, events, structs)) == Some(mocks)
    requires f in mocks && name in CountersUsed(f)
    ensures name in DeclaredCounters(defs) && multiset(DeclaredCounters(defs))[name] == 1
  {
    hide MocksOf, MockOf, ContextOf, Increments, Dedup, CountersUsed;
    var def := MockOrigin(defs, ContextOf(defs, events, structs), f);
    UsedIsDeclared(defs, events, structs, def, name);
    OnceIfDistinct(DeclaredCounters(defs), name);
  }

  lemma {:induction false} OnceIfDistinct(s: seq<string>, x: string)
    requires NoDuplicates(s) && x in s
    ensures multiset(s)[x] == 1
  {
    var init, last := s[..|s| - 1], s[|s| - 1];
    assert s == init + [last];
    if x in init {
      OnceIfDistinct(init, x);
      var i :| 0 <= i < |init| && init[i] == x;
      assert s[i] != s[|s| - 1];
    }
  }
}
