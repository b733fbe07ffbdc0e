/**
 Small inputs on which the generator does not do what it is for: one for each condition proved in
 EmitScan, MockScoping, MockCounters and EmittedIds.
 */
module MockExamples {
  import opened Lists
  import opened Words
  import opened Wrappers
  import opened SyntaxTree
  import opened MockScan
  import opened EmitScan
  import opened ScannerCases
  import opened MockFunctions
  import opened MockScoping
  import opened MockContract
  import opened MockCounters
  import opened RequestIds
  import opened MockRuns
  import opened EmittedIds

  // ---------------------------------------------------------------------------------------------
  // Statements
  // ---------------------------------------------------------------------------------------------

  /** if (...) {} else emit E(...); */
  function EmitInElse(): Node {
    Obj([Field("type", Str("IfStatement")),
         Field("trueBody", Obj([Field("type", Str("Block")), Field("statements", Arr([]))])),
         Field("falseBody", EmitOf("E"))])
  }

  /** A function whose emit is in an else branch: the scanner returns nothing and misses it. */
  lemma ElseBranchIsMissed()
    ensures Emits([EmitInElse()]) == [] && Missed([EmitInElse()]) > 0
  {
    var s := EmitInElse();
    NothingMissed();
    ScannedCases(s);
    assert Scanned(s) == [];
    assert Emits([s]) == Emits(Scanned(s)) + Emits([s][1..]);
    FoundOrMissed([s]);
    AllEmitsOfOne(s);
    AllEmitsAround(Children(s), 2);
    AllEmitsOfOne(Children(s)[2]);
  }

  // ---------------------------------------------------------------------------------------------
  // A function that hands out ids
  // ---------------------------------------------------------------------------------------------

  const UINT256 := Elementary("uint256")

  function IdParameters(ids: seq<Assignment>): (parameters: seq<Parameter>)
    ensures |parameters| == |ids|
    ensures forall i :: 0 <= i < |ids| ==> parameters[i] == Parameter(Some(ids[i].idVar), UINT256, None)
  {
    seq(|ids|, i requires 0 <= i < |ids| => Parameter(Some(ids[i].idVar), UINT256, None))
  }

  /** event E with a uint256 for each id. */
  function EventE(ids: seq<Assignment>): EventDef {
    EventDef("E", IdParameters(ids))
  }

  /** $.counter++; uint256 id = $.counter; for each id, then the emit. */
  function IdStatements(ids: seq<Assignment>): seq<Node> {
    if ids == [] then [EmitOf("E")]
    else [Increment(ids[0].counterVar)] + ([ReadInto(ids[0].idVar, ids[0].counterVar)] + IdStatements(ids[1..]))
  }

  function IdFunction(input: string, ids: seq<Assignment>): FunctionDef {
    FunctionDef("f", [Parameter(Some(input), UINT256, None)], "external", "", [], Some(IdStatements(ids)), [])
  }

  function IdDeclaration(id: Assignment): Declaration {
    Declaration(Some(id.idVar), "uint256", FromCounter(id.counterVar))
  }

  function IdDeclarations(ids: seq<Assignment>): (ds: seq<Declaration>)
    ensures |ds| == |ids| && forall i :: 0 <= i < |ids| ==> ds[i] == IdDeclaration(ids[i])
  {
    seq(|ids|, i requires 0 <= i < |ids| => IdDeclaration(ids[i]))
  }

  /** The same function without the storage pointer. */
  function IdMock(input: string, ids: seq<Assignment>): MockFunction {
    MockFunction("f", [input], ["uint256 " + input], "external",
                 IdDeclarations(ids), [Emit("E", Names(IdParameters(ids)))])
  }

  /** What the scanners make of the function. */
  function IdContext(ids: seq<Assignment>): Context {
    Context([EventE(ids)], [], ids)
  }

  function CountersOf(ids: seq<Assignment>): (counters: seq<string>)
    ensures |counters| == |ids| && forall i :: 0 <= i < |ids| ==> counters[i] == ids[i].counterVar
  {
    seq(|ids|, i requires 0 <= i < |ids| => ids[i].counterVar)
  }

  /** Names that keep apart: no id is named twice, like the input, or by the special name decryptionId. */
  predicate Distinct(input: string, ids: seq<Assignment>) {
    && (forall i :: 0 <= i < |ids| ==> ids[i].idVar !in ["", input, "decryptionId"] && ids[i].counterVar != "")
    && (forall i, j :: 0 <= i < j < |ids| ==> ids[i].idVar != ids[j].idVar)
  }

  lemma {:induction false} FoundInStatements(ids: seq<Assignment>)
    requires forall i :: 0 <= i < |ids| ==> ids[i].idVar != "" && ids[i].counterVar != ""
    ensures Increments(IdStatements(ids)) == CountersOf(ids)
    ensures MemberReads(IdStatements(ids)) == ids
  {
    hide Increments, MemberReads, Increment, ReadInto, EmitOf;
    if ids == [] {
      QuietEmit("E");
    } else {
      FoundInStatements(ids[1..]);
      FoundInPair(ids[0], IdStatements(ids[1..]));
      assert CountersOf(ids) == [ids[0].counterVar] + CountersOf(ids[1..]);
      assert ids == [ids[0]] + ids[1..];
    }
  }

  lemma {:induction false} EmitsInStatements(ids: seq<Assignment>)
    ensures Emits(IdStatements(ids)) == [EmitOf("E")]
  {
    hide Emits, IsEmit, Scanned, Increment, ReadInto, EmitOf;
    NoEmits();
    if ids == [] {
      EmitsOfOthers("E", "");
      NextEmits([EmitOf("E")], 0);
      assert [EmitOf("E")][..1] == [EmitOf("E")];
    } else {
      var id, rest := ids[0], IdStatements(ids[1..]);
      EmitsInStatements(ids[1..]);
      EmitsOfOthers(id.idVar, id.counterVar);
      NoEmitIn(Increment(id.counterVar), [ReadInto(id.idVar, id.counterVar)] + rest);
      NoEmitIn(ReadInto(id.idVar, id.counterVar), rest);
    }
  }

  // ---------------------------------------------------------------------------------------------
  // What is generated for the function
  // ---------------------------------------------------------------------------------------------

  lemma {:induction false} ContextOfId(input: string, ids: seq<Assignment>)
    requires Distinct(input, ids)
    ensures ContextOf([IdFunction(input, ids)], [EventE(ids)], []) == IdContext(ids)
  {
    hide Increments, MemberReads, IdStatements, Dedup, FromCounters;
    var defs := [IdFunction(input, ids)];
    FoundInStatements(ids);
    assert defs[..1] == defs && defs[..0] == [];
    NoDefs([], Context([], [], []), defs);
    NextDef(defs, 0, [], Context([], [], []));
    var counters := BodyCounters(defs);
    assert counters == Dedup(CountersOf(ids));
    NoDefs(counters, Context([], [], []), defs);
    NextDef(defs, 0, counters, Context([], [], []));
    forall i | 0 <= i < |ids|
      ensures ids[i].counterVar in counters
    {
      assert CountersOf(ids)[i] in CountersOf(ids);
    }
    AllAreKept(ids, counters);
  }

  lemma {:induction false} AllAreKept(ids: seq<Assignment>, counters: seq<string>)
    requires forall i :: 0 <= i < |ids| ==> ids[i].counterVar in counters
    ensures FromCounters(ids, counters) == ids
  {
    if ids != [] {
      AllAreKept(ids[..|ids| - 1], counters);
      assert ids == ids[..|ids| - 1] + [ids[|ids| - 1]];
    }
  }

  lemma {:induction false} EventOfEmit(ids: seq<Assignment>)
    ensures EventName(EmitOf("E")) == Str("E")
    ensures EventsOf([EmitOf("E")], [EventE(ids)]) == Some([EventE(ids)])
  {
    var emits, events := [EmitOf("E")], [EventE(ids)];
    assert emits[..0] == [];
    assert EventsOf(emits[..0], events) == Some([]);
    assert FindEvent(events, Str("E")) == Some(EventE(ids));
    assert [] + events == events;
  }

  lemma NothingIsFresh(input: string)
    ensures Fresh([], [input]) == []
  {
  }

  lemma {:induction false} AllAreFresh(input: string, ids: seq<Assignment>)
    requires Distinct(input, ids)
    ensures Fresh(IdParameters(ids), [input]) == IdParameters(ids)
  {
    hide Fresh;
    if ids == [] {
      NothingIsFresh(input);
    } else {
      var init, p := ids[..|ids| - 1], IdParameters(ids)[|ids| - 1];
      AllAreFresh(input, init);
      FreshSnoc(IdParameters(init), p, [input]);
      assert IdParameters(ids) == IdParameters(init) + [p];
      assert p.name !in Names(IdParameters(init));
    }
  }

  lemma {:induction false} FirstMatchOf(ids: seq<Assignment>, i: nat, counters: seq<string>)
    requires i < |ids| && ids[i].idVar != "decryptionId"
    requires forall j :: 0 <= j < i ==> ids[j].idVar != ids[i].idVar
    ensures FirstMatch(ids, Some(ids[i].idVar), counters) == Some(ids[i])
    decreases i
  {
    if i > 0 {
      FirstMatchOf(ids[1..], i - 1, counters);
    }
  }

  lemma {:induction false} DeclarationsOfId(input: string, ids: seq<Assignment>, n: nat, counters: seq<string>)
    requires Distinct(input, ids) && n <= |ids|
    ensures DeclareAll(IdParameters(ids)[..n], IdContext(ids), counters) == Some(IdDeclarations(ids)[..n])
  {
    hide FirstMatch;
    if n > 0 {
      DeclarationsOfId(input, ids, n - 1, counters);
      FirstMatchOf(ids, n - 1, counters);
      assert IdParameters(ids)[..n][..n - 1] == IdParameters(ids)[..n - 1];
      assert Declare(IdParameters(ids)[n - 1], IdContext(ids), counters) == Some(IdDeclarations(ids)[n - 1]);
      assert IdDeclarations(ids)[..n] == IdDeclarations(ids)[..n - 1] + [IdDeclarations(ids)[n - 1]];
    }
  }

  lemma {:induction false} MockOfId(input: string, ids: seq<Assignment>)
    requires Distinct(input, ids)
    ensures
      var def := IdFunction(input, ids);
      MockOf(def, Body(def), IdContext(ids)) == Mock(IdMock(input, ids))
  {
    hide Increments, MemberReads, IdStatements, Dedup, Emits, EventsOf, Fresh, DeclareAll;
    var def := IdFunction(input, ids);
    EmitsInStatements(ids);
    EventOfEmit(ids);
    AllAreFresh(input, ids);
    assert AllParameters([EventE(ids)]) == [] + IdParameters(ids) == IdParameters(ids);
    DeclarationsOfId(input, ids, |ids|, Dedup(Increments(Body(def))));
    assert IdParameters(ids)[..|ids|] == IdParameters(ids) && IdDeclarations(ids)[..|ids|] == IdDeclarations(ids);
    assert ParameterNames(def.parameters) == [input];
    assert "uint256" + " " + "" == "uint256 ";
    assert ParameterTexts(def.parameters) == ["uint256 " + input];
    assert EmitAll([EventE(ids)]) == [Emit("E", Names(IdParameters(ids)))];
  }

  /** The counters are declared, and the one mock function takes an id from each of them. */
  lemma {:induction false} GeneratedForId(input: string, ids: seq<Assignment>)
    requires Distinct(input, ids)
    ensures
      var defs := [IdFunction(input, ids)];
      && MocksOf(defs, ContextOf(defs, [EventE(ids)], [])) == Some([IdMock(input, ids)])
      && DeclaredCounters(defs) == Dedup(CountersOf(ids))
  {
    hide Increments, MemberReads, IdStatements, Dedup, MockOf, ContextOf, BodyNode;
    var def := IdFunction(input, ids);
    var defs, c := [def], IdContext(ids);
    ContextOfId(input, ids);
    MockOfId(input, ids);
    assert defs[..1] == defs && defs[..0] == [];
    NoDefs([], c, defs);
    NextDef(defs, 0, [], c);
    assert Mocked(def);
    assert [] + [IdMock(input, ids)] == [IdMock(input, ids)];
    FoundInStatements(ids);
    IncrementsOfDefinition(def);
    assert AsNodes(defs) == [AsNode(def)];
  }

  /** A definition in which only the body is more than text. */
  lemma {:induction false} IncrementsOfDefinition(def: FunctionDef)
    requires def.before == [] && def.after == [] && def.body.Some?
    ensures Increments([AsNode(def)]) == Increments(Body(def))
  {
    hide Increments, MemberReads;
    var list := Arr(Body(def));
    FoundInOne(list);
    QuietString("Block");
    FoundInMore(Str("Block"), [list]);
    assert Children(BodyNode(def)) == [Str("Block")] + [list];
    FoundInOne(BodyNode(def));
    QuietString("FunctionDefinition");
    FoundInMore(Str("FunctionDefinition"), [BodyNode(def)]);
    assert Children(AsNode(def)) == [Str("FunctionDefinition")] + [BodyNode(def)];
    FoundInOne(AsNode(def));
  }

  // ---------------------------------------------------------------------------------------------
  // What the mock function does
  // ---------------------------------------------------------------------------------------------

  lemma KeepsUnlessDollar(name: string)
    requires '$' !in name
    ensures Collapse(name) == name
  {
    CollapseKeepsIff(name);
  }

  /** `counter++; uint256 id = counter;` where the counter is a state variable. */
  lemma {:induction false} ReadsState(t: State, id: Assignment)
    requires '$' !in id.counterVar && '$' !in id.idVar
    requires id.counterVar !in t.locals && id.counterVar in t.values && t.values[id.counterVar] + 1 < TWO_256
    ensures
      var v := t.values[id.counterVar] + 1;
      Execute(t, IdDeclaration(id)) == Some(State(
        t.values[id.counterVar := v], t.locals[id.idVar := v],
        t.ids + [Id(id.counterVar, StateVariable(id.counterVar), v)], t.emitted))
  {
    hide Collapse;
    KeepsUnlessDollar(id.counterVar);
    KeepsUnlessDollar(id.idVar);
  }

  /** The same where it is a parameter or an id declared before. */
  lemma {:induction false} ReadsLocal(t: State, id: Assignment)
    requires '$' !in id.counterVar && '$' !in id.idVar
    requires id.counterVar in t.locals && t.locals[id.counterVar] + 1 < TWO_256
    ensures
      var v := t.locals[id.counterVar] + 1;
      Execute(t, IdDeclaration(id)) == Some(State(
        t.values, t.locals[id.counterVar := v][id.idVar := v], t.ids + [Id(id.counterVar, Local, v)], t.emitted))
  {
    hide Collapse;
    KeepsUnlessDollar(id.counterVar);
    KeepsUnlessDollar(id.idVar);
  }

  lemma {:induction false} AllUsed(ids: seq<Assignment>, n: nat)
    requires n <= |ids|
    ensures UsedIn(IdDeclarations(ids)[..n]) == CountersOf(ids)[..n]
  {
    if n > 0 {
      AllUsed(ids, n - 1);
      assert IdDeclarations(ids)[..n][..n - 1] == IdDeclarations(ids)[..n - 1];
    }
  }

  /** The emit carries each id, under its name. */
  lemma {:induction false} IdsAreEmitted(input: string, ids: seq<Assignment>, t: State, first: nat, n: nat)
    requires Distinct(input, ids) && n <= |ids|
    ensures
      var emitted := EmitIds(t, IdDeclarations(ids), first, Names(IdParameters(ids))[..n]);
      && |emitted| == n
      && forall k :: 0 <= k < n ==> emitted[k] == EmittedId(first + k, ArgumentValue(t, Some(ids[k].idVar)))
  {
    hide IdIndex, ArgumentValue;
    if n > 0 {
      var args := Names(IdParameters(ids));
      IdsAreEmitted(input, ids, t, first, n - 1);
      assert args[..n][..n - 1] == args[..n - 1];
      IdIndexOf(IdDeclarations(ids), n - 1);
      AllUsed(ids, n - 1);
    }
  }

  /** A call of the mock function whose declarations end in state `t`. */
  lemma {:induction false} CallOfId(s: State, c: MockCall, input: string, ids: seq<Assignment>, t: State)
    requires Distinct(input, ids) && c.f == IdMock(input, ids)
    requires ExecuteFirst(Enter(s, c), c.f, |ids|) == Some(t)
    ensures
      var u := CallMock(s, c);
      && u.values == t.values && u.ids == t.ids && |u.emitted| == |t.emitted| + |ids|
      && u.emitted[..|t.emitted|] == t.emitted
      && forall k :: 0 <= k < |ids| ==>
           u.emitted[|t.emitted| + k] == EmittedId(|s.ids| + k, ArgumentValue(t, Some(ids[k].idVar)))
  {
    hide ExecuteFirst, Enter, ArgumentValue, EmitIds;
    var args := Names(IdParameters(ids));
    IdsAreEmitted(input, ids, t, |s.ids|, |ids|);
    assert args[..|ids|] == args;
    assert AllArguments(c.f.emits) == [] + args == args;
  }

  lemma {:induction false} FirstState(counters: seq<string>, c: MockCall)
    ensures Run(counters, [c]) == CallMock(Run(counters, []), c)
    ensures Run(counters, []).ids == [] && Run(counters, []).emitted == []
    ensures forall name :: name in counters ==>
      name in Run(counters, []).values && Run(counters, []).values[name] == InitialValue(name)
  {
    hide CallMock, InitialValue;
    assert [c][..0] == [];
  }

  lemma {:induction false} ExecuteNext(s: State, f: MockFunction, n: nat, t: State)
    requires n < |f.declarations| && ExecuteFirst(s, f, n) == Some(t)
    ensures ExecuteFirst(s, f, n + 1) == Execute(t, f.declarations[n])
  {
    hide Execute;
  }

  // ---------------------------------------------------------------------------------------------
  // What goes wrong
  // ---------------------------------------------------------------------------------------------

  /** An event parameter `a$$` is declared as `a$` and emitted as `a$$`. */
  lemma DollarArgumentIsNotDeclared()
    ensures
      var ids := [Assignment("idCounter", "a$$")];
      var def, f := IdFunction("input", ids), IdMock("input", ids);
      MockOf(def, Body(def), ContextOf([def], [EventE(ids)], [])) == Mock(f) && !WellScoped(f)
  {
    hide MockOf, ContextOf, WellScoped, IdFunction, Emits;
    var x, ids := "a$$", [Assignment("idCounter", "a$$")];
    var def, f := IdFunction("input", ids), IdMock("input", ids);
    ContextOfId("input", ids);
    MockOfId("input", ids);
    ScopedIffPrintable(def, Body(def), ContextOf([def], [EventE(ids)], []));
    assert f.emits[0].args[0] == Some(x) && IsArgument(f, Some(x));
    assert x[1] == '$' && x[2] == '$';
    assert !Printable(Some(x), f.parameterNames);
  }

  lemma DollarPrintsAsOne()
    ensures Collapse("a$$") == "a$" && Collapse("a$") == "a$"
  {
    assert "a$$"[1..] == "$$" && "$$"[2..] == "";
    assert ['a'] + Collapse("$$") == "a$";
    assert !HasDoubleDollar("a$");
    CollapseKeepsIff("a$");
  }

  /** The increment of a counter `a$$` is printed as one of the counter `a$`: both ids are read from `a$`. */
  lemma DollarCounterHitsAnother()
    ensures
      var ids := [Assignment("a$$", "x"), Assignment("a$", "y")];
      var defs, f := [IdFunction("input", ids)], IdMock("input", ids);
      && MocksOf(defs, ContextOf(defs, [EventE(ids)], [])) == Some([f])
      && CountersUsed(f) == ["a$$", "a$"]
      && PrintedIncrements(f, DeclaredCounters(defs)) == [StateVariable("a$"), StateVariable("a$")]
  {
    hide MocksOf, ContextOf, IdFunction, UsedIn, IncrementsBefore, Increments, Collapse, Dedup, HasDoubleDollar;
    var ids := [Assignment("a$$", "x"), Assignment("a$", "y")];
    var f, counters := IdMock("input", ids), DeclaredCounters([IdFunction("input", ids)]);
    GeneratedForId("input", ids);
    AllUsed(ids, 2);
    assert f.declarations[..2] == f.declarations && CountersOf(ids)[..2] == ["a$$", "a$"];
    assert "a$" in CountersOf(ids) by {
      assert CountersOf(ids)[1] == "a$";
    }
    DollarPrintsAsOne();
    KeepsUnlessDollar("x");
    NextIncrement(f, counters, 0, "a$$");
    NextIncrement(f, counters, 1, "a$");
  }

  lemma {:induction false} NextIncrement(f: MockFunction, counters: seq<string>, n: nat, counter: string)
    requires n < |f.declarations| && f.declarations[n].form == FromCounter(counter)
    ensures IncrementsBefore(f, counters, 0) == []
    ensures IncrementsBefore(f, counters, n + 1) ==
      IncrementsBefore(f, counters, n) + [Refers(f, counters, n, Collapse(counter))]
  {
    hide Refers, Collapse;
  }

  /** A call whose input bears the name of its counter: the emitted id is the argument plus one. */
  lemma {:induction false} CallOfHidden(s: State, v: Word)
    requires v + 1 < TWO_256
    ensures
      var ids := [Assignment("keyCounter", "x")];
      var u := CallMock(s, MockCall(IdMock("keyCounter", ids), map["keyCounter" := v]));
      && |u.emitted| == |s.emitted| + 1 && u.emitted[..|s.emitted|] == s.emitted && |u.ids| == |s.ids| + 1
      && u.emitted[|s.emitted|] == EmittedId(|s.ids|, v + 1)
  {
    hide Execute, CallMock;
    var ids := [Assignment("keyCounter", "x")];
    var f := IdMock("keyCounter", ids);
    var c := MockCall(f, map["keyCounter" := v]);
    var begin := Enter(s, c);
    assert begin.locals["keyCounter"] == v;
    ReadsLocal(begin, ids[0]);
    ExecuteNext(begin, f, 0, begin);
    CallOfId(s, c, "keyCounter", ids, Execute(begin, f.declarations[0]).value);
  }

  /** A parameter named like the counter is incremented in its place: two calls with one argument give one id twice. */
  lemma ParameterHidesCounter(v: Word)
    requires v + 1 < TWO_256
    ensures
      var ids := [Assignment("keyCounter", "x")];
      var defs, f := [IdFunction("keyCounter", ids)], IdMock("keyCounter", ids);
      var c := MockCall(f, map["keyCounter" := v]);
      && MocksOf(defs, ContextOf(defs, [EventE(ids)], [])) == Some([f])
      && Run(DeclaredCounters(defs), [c, c]).emitted == [EmittedId(0, v + 1), EmittedId(1, v + 1)]
  {
    hide MocksOf, ContextOf, IdFunction, Increments, InitialValue, CallMock, Dedup;
    var ids := [Assignment("keyCounter", "x")];
    var counters := DeclaredCounters([IdFunction("keyCounter", ids)]);
    var c := MockCall(IdMock("keyCounter", ids), map["keyCounter" := v]);
    GeneratedForId("keyCounter", ids);
    FirstState(counters, c);
    var s := Run(counters, []);
    CallOfHidden(s, v);
    assert [c, c][..1] == [c];
    CallOfHidden(CallMock(s, c), v);
  }

  lemma IsKey(counter: string)
    requires CleanName(counter) == "key"
    ensures IsRequestCounter(counter) && RequestType(counter) == 4 && InitialValue(counter) == 4 * SHIFTED
  {
    hide CleanName;
    assert "key" in REQUEST_TYPES && REQUEST_TYPES["key"] == 4;
  }

  lemma KeyNames()
    ensures CleanName("key") == "key" == CleanName("keyCounter")
  {
    assert "keyCounter"[..3] == "key" && "keyCounter"[3..] == "Counter";
  }

  /** A run of one call with zero arguments. */
  lemma OneCallIsUnsound(f: MockFunction, counters: seq<string>, k: nat, j: nat)
    requires
      var u := Run(counters, [MockCall(f, map[])]);
      && |u.ids| < SHIFTED && k < |u.emitted| && j < |u.emitted|
      && IsRequestId(u, u.emitted[k]) && IsRequestId(u, u.emitted[j])
      && u.emitted[k].id != u.emitted[j].id && u.emitted[k].value == u.emitted[j].value
    ensures !AlwaysSound([f], counters)
  {
    hide Run, IsRequestCounter;
    var u := Run(counters, [MockCall(f, map[])]);
    assert u.emitted[k] in u.emitted && u.emitted[j] in u.emitted;
    assert CallsOf([f], [MockCall(f, map[])]);
    assert InRange(u.ids);
  }

  lemma KeepNames()
    ensures ArgumentText(Some("x")) == "x" && ArgumentText(Some("y")) == "y" && ArgumentText(Some("z")) == "z"
  {
  }

  /** A call of a function with the ids `x` and `y`, from two counters that are not hidden. */
  lemma {:induction false} CallOfTwo(s: State, counter: string, other: string)
    requires '$' !in counter && '$' !in other && other != counter
    requires counter !in ["", "input", "x"] && other !in ["", "input", "x"]
    requires counter in s.values && other in s.values
    requires s.values[counter] + 1 < TWO_256 && s.values[other] + 1 < TWO_256
    ensures
      var ids := [Assignment(counter, "x"), Assignment(other, "y")];
      var u := CallMock(s, MockCall(IdMock("input", ids), map[]));
      && |u.ids| == |s.ids| + 2 && u.ids[|s.ids|].counter == counter && u.ids[|s.ids| + 1].counter == other
      && |u.emitted| == |s.emitted| + 2 && u.emitted[|s.emitted|] == EmittedId(|s.ids|, s.values[counter] + 1)
      && u.emitted[|s.emitted| + 1] == EmittedId(|s.ids| + 1, s.values[other] + 1)
  {
    hide Execute, CallMock;
    var ids := [Assignment(counter, "x"), Assignment(other, "y")];
    var f := IdMock("input", ids);
    var c := MockCall(f, map[]);
    var begin := Enter(s, c);
    ReadsState(begin, ids[0]);
    var first := Execute(begin, f.declarations[0]).value;
    ExecuteNext(begin, f, 0, begin);
    ReadsState(first, ids[1]);
    ExecuteNext(begin, f, 1, first);
    KeepNames();
    CallOfId(s, c, "input", ids, Execute(first, f.declarations[1]).value);
  }

  /** A function that takes an id from `key` and one from `keyCounter` emits the same id twice in its first call. */
  lemma KeyAndKeyCounterCollide()
    ensures
      var ids := [Assignment("key", "x"), Assignment("keyCounter", "y")];
      var defs, f := [IdFunction("input", ids)], IdMock("input", ids);
      && MocksOf(defs, ContextOf(defs, [EventE(ids)], [])) == Some([f])
      && Run(DeclaredCounters(defs), [MockCall(f, map[])]).emitted ==
           [EmittedId(0, 4 * SHIFTED + 1), EmittedId(1, 4 * SHIFTED + 1)]
      && !AlwaysSound([f], DeclaredCounters(defs))
  {
    hide MocksOf, ContextOf, IdFunction, IdMock, Increments, InitialValue, CallMock, Dedup, Run, IsRequestCounter,
      AlwaysSound;
    var ids := [Assignment("key", "x"), Assignment("keyCounter", "y")];
    var f, counters := IdMock("input", ids), DeclaredCounters([IdFunction("input", ids)]);
    GeneratedForId("input", ids);
    assert CountersOf(ids)[0] == "key" && CountersOf(ids)[1] == "keyCounter";
    FirstState(counters, MockCall(f, map[]));
    KeyNames();
    IsKey("key");
    IsKey("keyCounter");
    CallOfTwo(Run(counters, []), "key", "keyCounter");
    OneCallIsUnsound(f, counters, 0, 1);
  }

  function ThreeIds(): seq<Assignment> {
    [Assignment("keyCounter", "x"), Assignment("x", "y"), Assignment("keyCounter", "z")]
  }

  /** The state in which the declarations for `ThreeIds` end. */
  function ThreeRead(s: State, v: nat): State {
    State(s.values["keyCounter" := v + 2], map["input" := 0, "x" := v + 2, "y" := v + 2, "z" := v + 2],
          s.ids + [Id("keyCounter", StateVariable("keyCounter"), v + 1)] + [Id("x", Local, v + 2)]
          + [Id("keyCounter", StateVariable("keyCounter"), v + 2)], s.emitted)
  }

  lemma {:induction false} ReadTwo(s: State, v: nat) returns (t: State)
    requires "keyCounter" in s.values && s.values["keyCounter"] == v && v + 2 < TWO_256
    ensures
      var c := MockCall(IdMock("input", ThreeIds()), map[]);
      && ExecuteFirst(Enter(s, c), c.f, 2) == Some(t)
      && t.locals == map["input" := 0, "x" := v + 2, "y" := v + 2]
      && t.values == s.values["keyCounter" := v + 1] && t.emitted == s.emitted
      && t.ids == s.ids + [Id("keyCounter", StateVariable("keyCounter"), v + 1)] + [Id("x", Local, v + 2)]
  {
    hide Execute;
    var ids, f := ThreeIds(), IdMock("input", ThreeIds());
    var begin := Enter(s, MockCall(f, map[]));
    assert begin == s.(locals := map["input" := 0]);
    ReadsState(begin, ids[0]);
    var first := Execute(begin, f.declarations[0]).value;
    assert first.locals == map["input" := 0, "x" := v + 1];
    ExecuteNext(begin, f, 0, begin);
    ReadsLocal(first, ids[1]);
    t := Execute(first, f.declarations[1]).value;
    ExecuteNext(begin, f, 1, first);
  }

  lemma {:induction false} ReadThree(s: State, v: nat)
    requires "keyCounter" in s.values && s.values["keyCounter"] == v && v + 2 < TWO_256
    ensures
      var c := MockCall(IdMock("input", ThreeIds()), map[]);
      ExecuteFirst(Enter(s, c), c.f, 3) == Some(ThreeRead(s, v))
  {
    hide Execute, ThreeRead, Enter, ExecuteFirst;
    var f := IdMock("input", ThreeIds());
    var second := ReadTwo(s, v);
    ReadsState(second, ThreeIds()[2]);
    ExecuteNext(Enter(s, MockCall(f, map[])), f, 2, second);
    IsThreeRead(s, v, Execute(second, f.declarations[2]).value);
  }

  lemma {:induction false} EmitsThree(s: State, v: nat)
    ensures forall k :: 0 <= k < 3 ==> ArgumentValue(ThreeRead(s, v), Some(ThreeIds()[k].idVar)) == v + 2
  {
  }

  lemma {:induction false} IsThreeRead(s: State, v: nat, t: State)
    requires t.values == s.values["keyCounter" := v + 2] && t.emitted == s.emitted
    requires t.locals == map["input" := 0, "x" := v + 2, "y" := v + 2, "z" := v + 2]
    requires t.ids == s.ids + [Id("keyCounter", StateVariable("keyCounter"), v + 1)] + [Id("x", Local, v + 2)]
      + [Id("keyCounter", StateVariable("keyCounter"), v + 2)]
    ensures t == ThreeRead(s, v)
  {
  }

  lemma {:induction false} CallOfThree(s: State)
    requires "keyCounter" in s.values && s.values["keyCounter"] + 2 < TWO_256
    ensures
      var u, v := CallMock(s, MockCall(IdMock("input", ThreeIds()), map[])), s.values["keyCounter"];
      && |u.ids| == |s.ids| + 3
      && u.ids[|s.ids|] == Id("keyCounter", StateVariable("keyCounter"), v + 1)
      && u.ids[|s.ids| + 2] == Id("keyCounter", StateVariable("keyCounter"), v + 2)
      && |u.emitted| == |s.emitted| + 3
      && u.emitted[|s.emitted|..] ==
           [EmittedId(|s.ids|, v + 2), EmittedId(|s.ids| + 1, v + 2), EmittedId(|s.ids| + 2, v + 2)]
  {
    hide ExecuteFirst, CallMock, Enter, IdMock;
    var c, v := MockCall(IdMock("input", ThreeIds()), map[]), s.values["keyCounter"];
    ReadThree(s, v);
    KeepNames();
    CallOfId(s, c, "input", ThreeIds(), ThreeRead(s, v));
    var u, t := CallMock(s, c), ThreeRead(s, v);
    EmitsThree(s, v);
    assert t.emitted == s.emitted && |t.ids| == |s.ids| + 3;
    forall k | 0 <= k < 3
      ensures u.emitted[|s.emitted|..][k] == EmittedId(|s.ids| + k, v + 2)
    {
      assert u.emitted[|t.emitted| + k] == EmittedId(|s.ids| + k, ArgumentValue(t, Some(ThreeIds()[k].idVar)));
    }
  }

  /**
   The counter of the second id is named like the first id, so the first id is incremented after it was read: the
   first call reads two different ids as `x` and `z` and emits the second one twice.
   */
  lemma LaterIncrementChangesId()
    ensures
      var defs, f := [IdFunction("input", ThreeIds())], IdMock("input", ThreeIds());
      var u := Run(DeclaredCounters(defs), [MockCall(f, map[])]);
      && MocksOf(defs, ContextOf(defs, [EventE(ThreeIds())], [])) == Some([f])
      && |u.ids| == 3 && u.ids[0].value == 4 * SHIFTED + 1 && u.ids[2].value == 4 * SHIFTED + 2
      && u.emitted == [EmittedId(0, 4 * SHIFTED + 2), EmittedId(1, 4 * SHIFTED + 2), EmittedId(2, 4 * SHIFTED + 2)]
      && !AlwaysSound([f], DeclaredCounters(defs))
  {
    hide MocksOf, ContextOf, IdFunction, IdMock, Increments, InitialValue, CallMock, Dedup, Run, IsRequestCounter,
      AlwaysSound;
    var f, counters := IdMock("input", ThreeIds()), DeclaredCounters([IdFunction("input", ThreeIds())]);
    GeneratedForId("input", ThreeIds());
    assert CountersOf(ThreeIds())[0] == "keyCounter";
    FirstState(counters, MockCall(f, map[]));
    KeyNames();
    IsKey("keyCounter");
    CallOfThree(Run(counters, []));
    OneCallIsUnsound(f, counters, 0, 2);
  }
}
