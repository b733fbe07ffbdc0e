/**
 The mock generator's function bodies: for every emit statement of a function, declarations for the
 event's parameters that the function does not have yet, then the emit.
 */
module MockFunctions {
  import opened Lists
  import opened Wrappers
  import opened SyntaxTree
  import opened MockScan
  import opened EmitScan

  datatype TypeName =
    | Elementary(name: string)
    | UserDefined(path: string)
    | ArrayOf(base: TypeName)
    | Other(kind: string)

  /** A parameter of an event or a function; one without a name has `null` for a name, or no storage location. */
  datatype Parameter = Parameter(name: Option<string>, typeName: TypeName, location: Option<string>)

  datatype EventDef = EventDef(name: string, parameters: seq<Parameter>)

  /** A function definition; `before` and `after` are its other properties, `body` its statements. */
  datatype FunctionDef = FunctionDef(
    name: string, parameters: seq<Parameter>, visibility: string, mutability: string,
    before: seq<Field>, body: Option<seq<Node>>, after: seq<Field>)

  datatype Form = FromCounter(counter: string) | NewArray | InMemory | OnStack

  datatype Declaration = Declaration(name: Option<string>, typeText: string, form: Form)

  datatype Emit = Emit(event: string, args: seq<Option<string>>)

  datatype MockFunction = MockFunction(
    name: string, parameterNames: seq<string>, parameterTexts: seq<string>, visibility: string,
    declarations: seq<Declaration>, emits: seq<Emit>)

  /** The generator may throw, leave the function out, or print a mock. */
  datatype Generated = Throws | Skipped | Mock(f: MockFunction)

  /** getParameterType; None is its exception. */
  function TypeText(t: TypeName): Option<string> {
    match t
    case Elementary(name) => Some(name)
    case UserDefined(path) => Some(path)
    case ArrayOf(base) =>
      (match TypeText(base)
       case Some(text) => Some(text + "[]")
       case None => None)
    case Other(_) => None
  }

  // ---------------------------------------------------------------------------------------------
  // Which counter an id is read from
  // ---------------------------------------------------------------------------------------------

  /** RequestIdCounters.decryptionId */
  function DecryptionCounter(idVar: string): Option<string> {
    if idVar == "publicDecryptionId" then Some("publicDecryptionCounter")
    else if idVar == "userDecryptionId" then Some("userDecryptionCounter")
    else None
  }

  predicate Matches(name: Option<string>, a: Assignment, functionCounters: seq<string>) {
    if name == Some("decryptionId") then
      DecryptionCounter(a.idVar).Some? && DecryptionCounter(a.idVar).value in functionCounters
    else name == Some(a.idVar)
  }

  function FirstMatch(assignments: seq<Assignment>, name: Option<string>, functionCounters: seq<string>)
    : (r: Option<Assignment>)
    ensures r.Some? ==> r.value in assignments && Matches(name, r.value, functionCounters)
  {
    if assignments == [] then None
    else if Matches(name, assignments[0], functionCounters) then Some(assignments[0])
    else FirstMatch(assignments[1..], name, functionCounters)
  }

  /** `find`: the first assignment that matches, and none only if none matches. */
  lemma {:induction false} FirstMatchIsFirst(
    assignments: seq<Assignment>, name: Option<string>, functionCounters: seq<string>, i: nat)
    requires i < |assignments| && Matches(name, assignments[i], functionCounters)
    requires forall j :: 0 <= j < i ==> !Matches(name, assignments[j], functionCounters)
    ensures FirstMatch(assignments, name, functionCounters) == Some(assignments[i])
    decreases i
  {
    if i > 0 {
      FirstMatchIsFirst(assignments[1..], name, functionCounters, i - 1);
    }
  }

  /** What the scanners found before any mock is printed. */
  datatype Context = Context(events: seq<EventDef>, structs: seq<string>, assignments: seq<Assignment>)

  function FormOf(name: Option<string>, typeText: string, c: Context, functionCounters: seq<string>): Form {
    match FirstMatch(c.assignments, name, functionCounters)
    case Some(a) => FromCounter(a.counterVar)
    case None =>
      if |typeText| >= 2 && typeText[|typeText| - 2..] == "[]" then NewArray
      else if typeText in c.structs || typeText in ["string", "bytes"] then InMemory
      else OnStack
  }

  function Declare(p: Parameter, c: Context, functionCounters: seq<string>): Option<Declaration> {
    match TypeText(p.typeName)
    case Some(text) => Some(Declaration(p.name, text, FormOf(p.name, text, c, functionCounters)))
    case None => None
  }

  // ---------------------------------------------------------------------------------------------
  // The specification of one mock function
  // ---------------------------------------------------------------------------------------------

  /** An unnamed parameter is given a comment for a name. */
  function ParameterName(p: Parameter): string {
    match p.name
    case Some(s) => s
    case None => "/* unusedVariable */"
  }

  function ParameterNames(parameters: seq<Parameter>): (names: seq<string>)
    ensures |names| == |parameters|
  {
    seq(|parameters|, i requires 0 <= i < |parameters| => ParameterName(parameters[i]))
  }

  /** A parameter in the header: its type, its storage location if it has one, and its name. */
  function ParameterText(p: Parameter): string
    requires TypeText(p.typeName).Some?
  {
    var location := match p.location
      case Some(text) => if text == "" then "" else text + " "
      case None => "";
    TypeText(p.typeName).value + " " + location + ParameterName(p)
  }

  predicate TypesSupported(parameters: seq<Parameter>) {
    forall p :: p in parameters ==> TypeText(p.typeName).Some?
  }

  function ParameterTexts(parameters: seq<Parameter>): (texts: seq<string>)
    requires TypesSupported(parameters)
    ensures |texts| == |parameters|
  {
    seq(|parameters|, i requires 0 <= i < |parameters| => ParameterText(parameters[i]))
  }

  predicate IsInput(name: Option<string>, inputs: seq<string>) {
    name.Some? && name.value in inputs
  }

  function Names(parameters: seq<Parameter>): (names: seq<Option<string>>)
    ensures |names| == |parameters|
    ensures forall i :: 0 <= i < |names| ==> names[i] == parameters[i].name
  {
    seq(|parameters|, i requires 0 <= i < |parameters| => parameters[i].name)
  }

  /** The parameters to declare: the first of every name that is not an input. */
  function Fresh(parameters: seq<Parameter>, inputs: seq<string>): seq<Parameter> {
    if parameters == [] then []
    else
      var last, kept := parameters[|parameters| - 1], Fresh(parameters[..|parameters| - 1], inputs);
      if IsInput(last.name, inputs) || last.name in Names(kept) then kept else kept + [last]
  }

  function DeclareAll(parameters: seq<Parameter>, c: Context, functionCounters: seq<string>): Option<seq<Declaration>> {
    if parameters == [] then Some([])
    else
      match (DeclareAll(parameters[..|parameters| - 1], c, functionCounters),
             Declare(parameters[|parameters| - 1], c, functionCounters))
      case (Some(ds), Some(d)) => Some(ds + [d])
      case _ => None
  }

  /** emitStatement.eventCall.expression.name */
  function EventName(emit: Node): Node {
    Prop(Prop(Prop(emit, "eventCall"), "expression"), "name")
  }

  function FindEvent(events: seq<EventDef>, name: Node): Option<EventDef> {
    if events == [] then None
    else if Str(events[0].name) == name then Some(events[0])
    else FindEvent(events[1..], name)
  }

  lemma {:induction false} FindEventIsFirst(events: seq<EventDef>, name: string, i: nat)
    requires i < |events| && events[i].name == name
    requires forall j :: 0 <= j < i ==> events[j].name != name
    ensures FindEvent(events, Str(name)) == Some(events[i])
    decreases i
  {
    if i > 0 {
      FindEventIsFirst(events[1..], name, i - 1);
    }
  }

  function EventsOf(emits: seq<Node>, events: seq<EventDef>): Option<seq<EventDef>> {
    if emits == [] then Some([])
    else
      match (EventsOf(emits[..|emits| - 1], events), FindEvent(events, EventName(emits[|emits| - 1])))
      case (Some(es), Some(e)) => Some(es + [e])
      case _ => None
  }

  function AllParameters(events: seq<EventDef>): seq<Parameter> {
    if events == [] then []
    else AllParameters(events[..|events| - 1]) + events[|events| - 1].parameters
  }

  function EmitAll(events: seq<EventDef>): (emits: seq<Emit>)
    ensures |emits| == |events|
    ensures forall i :: 0 <= i < |events| ==> emits[i] == Emit(events[i].name, Names(events[i].parameters))
  {
    seq(|events|, i requires 0 <= i < |events| => Emit(events[i].name, Names(events[i].parameters)))
  }

  function MockOf(def: FunctionDef, statements: seq<Node>, c: Context): Generated {
    var emits := Emits(statements);
    if emits == [] then Skipped
    else if !TypesSupported(def.parameters) then Throws
    else
      match EventsOf(emits, c.events)
      case None => Throws
      case Some(events) =>
        var inputs := ParameterNames(def.parameters);
        match DeclareAll(Fresh(AllParameters(events), inputs), c, Dedup(Increments(statements)))
        case None => Throws
        case Some(declarations) =>
          Mock(MockFunction(
            def.name, inputs, ParameterTexts(def.parameters), def.visibility, declarations, EmitAll(events)))
  }

  // ---------------------------------------------------------------------------------------------
  // The generator
  // ---------------------------------------------------------------------------------------------

  lemma FreshSnoc(parameters: seq<Parameter>, p: Parameter, inputs: seq<string>)
    ensures Fresh(parameters + [p], inputs) ==
      if IsInput(p.name, inputs) || p.name in Names(Fresh(parameters, inputs)) then Fresh(parameters, inputs)
      else Fresh(parameters, inputs) + [p]
  {
  }

  lemma DeclareAllSnoc(parameters: seq<Parameter>, p: Parameter, c: Context, counters: seq<string>)
    ensures DeclareAll(parameters + [p], c, counters) ==
      if DeclareAll(parameters, c, counters).Some? && Declare(p, c, counters).Some?
      then Some(DeclareAll(parameters, c, counters).value + [Declare(p, c, counters).value])
      else None
  {
  }

  lemma {:induction false} FreshGrows(parameters: seq<Parameter>, more: seq<Parameter>, inputs: seq<string>)
    ensures Fresh(parameters, inputs) <= Fresh(parameters + more, inputs)
  {
    if more == [] {
      assert parameters + more == parameters;
    } else {
      var init := more[..|more| - 1];
      FreshGrows(parameters, init, inputs);
      assert parameters + more == (parameters + init) + [more[|more| - 1]];
      FreshSnoc(parameters + init, more[|more| - 1], inputs);
    }
  }

  lemma {:induction false} DeclareAllPrefix(
    parameters: seq<Parameter>, longer: seq<Parameter>, c: Context, counters: seq<string>)
    requires parameters <= longer
    ensures DeclareAll(longer, c, counters).Some? ==> DeclareAll(parameters, c, counters).Some?
  {
    if |parameters| < |longer| {
      DeclareAllPrefix(parameters, longer[..|longer| - 1], c, counters);
    } else {
      assert parameters == longer;
    }
  }

  lemma {:induction false} EventsPrefix(emits: seq<Node>, k: nat, events: seq<EventDef>)
    requires k <= |emits| && EventsOf(emits, events).Some?
    ensures EventsOf(emits[..k], events).Some?
    ensures EventsOf(emits[..k], events).value <= EventsOf(emits, events).value
    ensures |EventsOf(emits, events).value| == |emits|
  {
    if k < |emits| {
      EventsPrefix(emits[..|emits| - 1], k, events);
      assert emits[..|emits| - 1][..k] == emits[..k];
    } else {
      assert emits[..k] == emits;
      if emits != [] {
        EventsPrefix(emits[..|emits| - 1], |emits| - 1, events);
      }
    }
  }

  lemma {:induction false} ParametersPrefix(events: seq<EventDef>, longer: seq<EventDef>)
    requires events <= longer
    ensures AllParameters(events) <= AllParameters(longer)
  {
    if |events| < |longer| {
      ParametersPrefix(events, longer[..|longer| - 1]);
    } else {
      assert events == longer;
    }
  }

  /** What the declaration set and list hold after looking at these event parameters. */
  ghost predicate Declared(
    parameters: seq<Parameter>, inputs: seq<string>, c: Context, counters: seq<string>,
    declared: set<Option<string>>, declarations: seq<Declaration>)
  {
    && DeclareAll(Fresh(parameters, inputs), c, counters) == Some(declarations)
    && declared == Members(Names(Fresh(parameters, inputs)))
  }

  lemma NothingDeclared(inputs: seq<string>, c: Context, counters: seq<string>, emits: seq<Node>)
    ensures AllParameters([]) == [] && Declared([], inputs, c, counters, {}, []) && EmitAll([]) == []
    ensures EventsOf(emits[..0], c.events) == Some([])
  {
  }

  /** One more event parameter: skipped, declared, or not printable. */
  lemma NextParameter(
    parameters: seq<Parameter>, p: Parameter, inputs: seq<string>, c: Context, counters: seq<string>,
    declared: set<Option<string>>, declarations: seq<Declaration>)
    requires Declared(parameters, inputs, c, counters, declared, declarations)
    ensures IsInput(p.name, inputs) || p.name in declared ==>
      Declared(parameters + [p], inputs, c, counters, declared, declarations)
    ensures !IsInput(p.name, inputs) && p.name !in declared ==>
      match Declare(p, c, counters)
      case Some(d) => Declared(parameters + [p], inputs, c, counters, declared + {p.name}, declarations + [d])
      case None => DeclareAll(Fresh(parameters + [p], inputs), c, counters) == None
  {
    hide Fresh, DeclareAll, Declare, IsInput;
    var kept := Fresh(parameters, inputs);
    FreshSnoc(parameters, p, inputs);
    DeclareAllSnoc(kept, p, c, counters);
    assert p.name in declared <==> p.name in Names(kept);
    assert Names(kept + [p]) == Names(kept) + [p.name];
    assert Members(Names(kept) + [p.name]) == Members(Names(kept)) + {p.name};
  }

  /** A parameter that cannot be printed makes the whole function throw. */
  lemma ThrowsThroughout(
    all: seq<Parameter>, prefix: seq<Parameter>, inputs: seq<string>, c: Context, counters: seq<string>)
    requires prefix <= all && DeclareAll(Fresh(prefix, inputs), c, counters) == None
    ensures DeclareAll(Fresh(all, inputs), c, counters) == None
  {
    FreshGrows(prefix, all[|prefix|..], inputs);
    assert prefix + all[|prefix|..] == all;
    DeclareAllPrefix(Fresh(prefix, inputs), Fresh(all, inputs), c, counters);
  }

  lemma EventsOfNext(emits: seq<Node>, i: nat, events: seq<EventDef>)
    requires i < |emits|
    ensures EventsOf(emits[..i + 1], events) ==
      match (EventsOf(emits[..i], events), FindEvent(events, EventName(emits[i])))
      case (Some(es), Some(e)) => Some(es + [e])
      case _ => None
  {
    hide FindEvent, EventName;
    assert emits[..i + 1][..i] == emits[..i];
  }

  lemma AppendEvent(events: seq<EventDef>, e: EventDef)
    ensures AllParameters(events + [e]) == AllParameters(events) + e.parameters
    ensures EmitAll(events + [e]) == EmitAll(events) + [Emit(e.name, Names(e.parameters))]
  {
    assert (events + [e])[..|events|] == events;
  }

  lemma NextEvent(emits: seq<Node>, i: nat, c: Context, events: seq<EventDef>)
    requires i < |emits| && EventsOf(emits[..i], c.events) == Some(events)
    ensures match FindEvent(c.events, EventName(emits[i]))
      case None => EventsOf(emits, c.events) == None
      case Some(e) =>
        && EventsOf(emits[..i + 1], c.events) == Some(events + [e])
        && AllParameters(events + [e]) == AllParameters(events) + e.parameters
        && EmitAll(events + [e]) == EmitAll(events) + [Emit(e.name, Names(e.parameters))]
        && (EventsOf(emits, c.events).Some? ==>
              AllParameters(events) + e.parameters <= AllParameters(EventsOf(emits, c.events).value))
  {
    hide *;
    EventsOfNext(emits, i, c.events);
    var found := FindEvent(c.events, EventName(emits[i]));
    if EventsOf(emits, c.events).Some? {
      EventsPrefix(emits, i + 1, c.events);
    }
    if found.Some? {
      AppendEvent(events, found.value);
      if EventsOf(emits, c.events).Some? {
        ParametersPrefix(events + [found.value], EventsOf(emits, c.events).value);
      }
    }
  }

  lemma NamesSnoc(parameters: seq<Parameter>, k: nat)
    requires k < |parameters|
    ensures Names(parameters[..k + 1]) == Names(parameters[..k]) + [parameters[k].name]
    ensures parameters[..k + 1] == parameters[..k] + [parameters[k]]
  {
  }

  method PrintParameters(parameters: seq<Parameter>) returns (r: Option<seq<string>>)
    ensures r == if TypesSupported(parameters) then Some(ParameterTexts(parameters)) else None
  {
    var texts: seq<string> := [];
    for i := 0 to |parameters|
      invariant TypesSupported(parameters[..i]) && texts == ParameterTexts(parameters[..i])
    {
      if TypeText(parameters[i].typeName) == None {
        assert parameters[i] in parameters;
        return None;
      }
      texts := texts + [ParameterText(parameters[i])];
    }
    assert parameters[..|parameters|] == parameters;
    return Some(texts);
  }

  method GenerateMockFunction(def: FunctionDef, statements: seq<Node>, c: Context) returns (g: Generated)
    ensures g == MockOf(def, statements, c)
  {
    hide Fresh, DeclareAll, Declare, EventsOf, AllParameters, EmitAll, Names, Emits, Declared, FindEvent, EventName,
      IsInput, ParameterNames, ParameterTexts, TypesSupported, Increments, Dedup;
    var emits := FindEmitStatements(statements);
    if emits == [] {
      return Skipped;
    }
    var texts := PrintParameters(def.parameters);
    if texts == None {
      return Throws;
    }
    var inputs := ParameterNames(def.parameters);
    var counters := FindCounterOperators(statements);
    var declared: set<Option<string>>, declarations: seq<Declaration>, emitted: seq<Emit> := {}, [], [];
    ghost var events: seq<EventDef> := [];
    NothingDeclared(inputs, c, counters, emits);
    for i := 0 to |emits|
      invariant EventsOf(emits[..i], c.events) == Some(events)
      invariant Declared(AllParameters(events), inputs, c, counters, declared, declarations)
      invariant emitted == EmitAll(events)
    {
      NextEvent(emits, i, c, events);
      var found := FindEvent(c.events, EventName(emits[i]));
      if found == None {
        return Throws;
      }
      var event := found.value;
      var args: seq<Option<string>> := [];
      ghost var before := AllParameters(events);
      assert before + event.parameters[..0] == before;
      for k := 0 to |event.parameters|
        invariant args == Names(event.parameters[..k])
        invariant Declared(before + event.parameters[..k], inputs, c, counters, declared, declarations)
      {
        var p := event.parameters[k];
        NamesSnoc(event.parameters, k);
        NextParameter(before + event.parameters[..k], p, inputs, c, counters, declared, declarations);
        assert before + event.parameters[..k] + [p] == before + event.parameters[..k + 1];
        args := args + [p.name];
        if !IsInput(p.name, inputs) && p.name !in declared {
          var declaration := Declare(p, c, counters);
          if declaration == None {
            if EventsOf(emits, c.events).Some? {
              var all := AllParameters(EventsOf(emits, c.events).value);
              assert before + event.parameters[..k + 1] <= before + event.parameters;
              ThrowsThroughout(all, before + event.parameters[..k + 1], inputs, c, counters);
            }
            return Throws;
          }
          declarations := declarations + [declaration.value];
          declared := declared + {p.name};
        }
      }
      assert event.parameters[..|event.parameters|] == event.parameters;
      emitted := emitted + [Emit(event.name, args)];
      events := events + [event];
    }
    assert emits[..|emits|] == emits;
    DeclaredMeans(AllParameters(events), inputs, c, counters, declared, declarations);
    return Mock(MockFunction(def.name, inputs, texts.value, def.visibility, declarations, emitted));
  }

  lemma DeclaredMeans(
    parameters: seq<Parameter>, inputs: seq<string>, c: Context, counters: seq<string>,
    declared: set<Option<string>>, declarations: seq<Declaration>)
    requires Declared(parameters, inputs, c, counters, declared, declarations)
    ensures DeclareAll(Fresh(parameters, inputs), c, counters) == Some(declarations)
  {
  }
}
