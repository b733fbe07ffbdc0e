/**
 The counters of the printed mock contract. The increments are printed among the declarations of a
 function, by replacement, where a parameter or an earlier declaration may bear the same name; the state
 variables are printed as they are. Which variable does each printed increment change?
 */
module MockCounters {
  import opened Lists
  import opened Wrappers
  import opened MockScan
  import opened EmitScan
  import opened MockFunctions
  import opened MockScoping
  import opened MockContract

  /** What a name in a function body stands for. */
  datatype Variable = StateVariable(name: string) | Local | Undeclared

  /** What a name stands for where the first `i` declarations have been made: locals hide state variables. */
  function Refers(f: MockFunction, counters: seq<string>, i: nat, name: string): Variable
    requires i <= |f.declarations|
  {
    if name in f.parameterNames || name in DeclaredTexts(f)[..i] then Local
    else if name in counters then StateVariable(name)
    else Undeclared
  }

  /**
   The variables changed by the increments in the first `n` declarations, in order. A declaration from a
   counter increments that counter, and then reads it under the same name before its own name is in scope.
   */
  function IncrementsBefore(f: MockFunction, counters: seq<string>, n: nat): seq<Variable>
    requires n <= |f.declarations|
  {
    if n == 0 then []
    else
      IncrementsBefore(f, counters, n - 1)
      + match f.declarations[n - 1].form
        case FromCounter(counter) => [Refers(f, counters, n - 1, Collapse(counter))]
        case _ => []
  }

  function PrintedIncrements(f: MockFunction, counters: seq<string>): seq<Variable> {
    IncrementsBefore(f, counters, |f.declarations|)
  }

  function AsVariables(names: seq<string>): (variables: seq<Variable>)
    ensures |variables| == |names|
    ensures forall i :: 0 <= i < |names| ==> variables[i] == StateVariable(names[i])
  {
    seq(|names|, i requires 0 <= i < |names| => StateVariable(names[i]))
  }

  /** The counter of a declaration prints as it is and is not hidden where it is incremented. */
  predicate KeepsItsName(f: MockFunction, i: nat)
    requires i < |f.declarations|
  {
    match f.declarations[i].form
    case FromCounter(counter) =>
      && !HasDoubleDollar(counter)
      && counter !in f.parameterNames
      && forall j :: 0 <= j < i ==> DeclaredText(f.declarations[j].name) != counter
    case _ => true
  }

  lemma {:induction false} CounterIsMetIff(f: MockFunction, counters: seq<string>, i: nat, counter: string)
    requires i < |f.declarations| && f.declarations[i].form == FromCounter(counter) && counter in counters
    ensures Refers(f, counters, i, Collapse(counter)) == StateVariable(counter) <==> KeepsItsName(f, i)
  {
    CollapseKeepsIff(counter);
    assert forall j :: 0 <= j < i ==> DeclaredTexts(f)[..i][j] == DeclaredText(f.declarations[j].name);
  }

  lemma {:induction false} IncrementsBeforeIff(f: MockFunction, counters: seq<string>, n: nat)
    requires n <= |f.declarations|
    requires forall c :: c in UsedIn(f.declarations[..n]) ==> c in counters
    ensures |IncrementsBefore(f, counters, n)| == |UsedIn(f.declarations[..n])|
    ensures IncrementsBefore(f, counters, n) == AsVariables(UsedIn(f.declarations[..n]))
      <==> forall i :: 0 <= i < n ==> KeepsItsName(f, i)
  {
    hide Refers, KeepsItsName, Collapse;
    if n > 0 {
      var ds := f.declarations[..n];
      assert ds[..n - 1] == f.declarations[..n - 1];
      var before, used := IncrementsBefore(f, counters, n - 1), UsedIn(ds[..n - 1]);
      IncrementsBeforeIff(f, counters, n - 1);
      match ds[n - 1].form
      case FromCounter(counter) =>
        assert UsedIn(ds) == used + [counter];
        CounterIsMetIff(f, counters, n - 1, counter);
        SameIffSame(before, used, Refers(f, counters, n - 1, Collapse(counter)), counter);
      case _ =>
        assert UsedIn(ds) == used;
        NotFromCounter(f, n - 1);
    }
  }

  lemma {:induction false} SameIffSame(variables: seq<Variable>, names: seq<string>, v: Variable, name: string)
    requires |variables| == |names|
    ensures variables + [v] == AsVariables(names + [name])
      <==> variables == AsVariables(names) && v == StateVariable(name)
  {
    assert AsVariables(names + [name]) == AsVariables(names) + [StateVariable(name)];
    if variables + [v] == AsVariables(names) + [StateVariable(name)] {
      assert (variables + [v])[..|names|] == variables;
      assert (variables + [v])[|names|] == v;
    }
  }

  lemma NotFromCounter(f: MockFunction, i: nat)
    requires i < |f.declarations| && !f.declarations[i].form.FromCounter?
    ensures KeepsItsName(f, i)
  {
  }

  // ---------------------------------------------------------------------------------------------
  // The condition, read off the source of the function
  // ---------------------------------------------------------------------------------------------

  /** The event parameters that a function's mock declares: the first of every name that is not an input. */
  function ParametersToDeclare(def: FunctionDef, c: Context): seq<Parameter> {
    match EventsOf(Emits(Body(def)), c.events)
    case Some(events) => Fresh(AllParameters(events), ParameterNames(def.parameters))
    case None => []
  }

  /** The counter an event parameter is read from, if it is an id. */
  function IdCounter(def: FunctionDef, c: Context, p: Parameter): Option<string> {
    match FirstMatch(c.assignments, p.name, Dedup(Increments(Body(def))))
    case Some(a) => Some(a.counterVar)
    case None => None
  }

  /** The counter of an id has no `$$` and is not named like an input or a parameter that is declared before. */
  predicate KeepsCounter(def: FunctionDef, c: Context, i: nat)
    requires i < |ParametersToDeclare(def, c)|
  {
    var parameters := ParametersToDeclare(def, c);
    match IdCounter(def, c, parameters[i])
    case Some(counter) =>
      && !HasDoubleDollar(counter)
      && counter !in ParameterNames(def.parameters)
      && forall j :: 0 <= j < i ==> DeclaredText(parameters[j].name) != counter
    case None => true
  }

  predicate KeepsCounters(def: FunctionDef, c: Context) {
    forall i :: 0 <= i < |ParametersToDeclare(def, c)| ==> KeepsCounter(def, c, i)
  }

  /** A mock declares these parameters, and takes the ids among them from their counters. */
  ghost predicate DeclaresInputs(def: FunctionDef, c: Context, f: MockFunction) {
    var parameters := ParametersToDeclare(def, c);
    && f.parameterNames == ParameterNames(def.parameters)
    && |f.declarations| == |parameters|
    && forall i :: 0 <= i < |parameters| ==>
         && f.declarations[i].name == parameters[i].name
         && IdCounter(def, c, parameters[i]) ==
              match f.declarations[i].form
              case FromCounter(counter) => Some(counter)
              case _ => None
  }

  lemma FormOfInput(p: Parameter, def: FunctionDef, c: Context, d: Declaration)
    requires Declare(p, c, Dedup(Increments(Body(def)))) == Some(d)
    ensures d.name == p.name
    ensures IdCounter(def, c, p) ==
      match d.form
      case FromCounter(counter) => Some(counter)
      case _ => None
  {
    hide FirstMatch, Dedup, Increments;
  }

  lemma MockDeclaresInputs(def: FunctionDef, c: Context)
    ensures match MockOf(def, Body(def), c)
      case Mock(f) => DeclaresInputs(def, c, f)
      case _ => true
  {
    hide Emits, Increments, Dedup, TypesSupported, ParameterNames, ParameterTexts, Declare, AllParameters, Fresh,
      DeclareAll, IdCounter, EventsOf, EmitAll, Body;
    match MockOf(def, Body(def), c)
    case Mock(f) =>
      var parameters, counters := ParametersToDeclare(def, c), Dedup(Increments(Body(def)));
      DeclaredNames(parameters, c, counters);
      forall i | 0 <= i < |parameters|
        ensures Declare(parameters[i], c, counters) == Some(f.declarations[i])
      {
      }
      forall i | 0 <= i < |parameters| {
        FormOfInput(parameters[i], def, c, f.declarations[i]);
      }
    case _ =>
  }

  lemma KeepsItsNameIff(def: FunctionDef, c: Context, f: MockFunction, i: nat)
    requires DeclaresInputs(def, c, f) && i < |f.declarations|
    ensures KeepsItsName(f, i) <==> KeepsCounter(def, c, i)
  {
    hide ParametersToDeclare, IdCounter, HasDoubleDollar, ParameterNames;
    var parameters := ParametersToDeclare(def, c);
    assert forall j :: 0 <= j < i ==> f.declarations[j].name == parameters[j].name;
    assert IdCounter(def, c, parameters[i]) ==
      match f.declarations[i].form
      case FromCounter(counter) => Some(counter)
      case _ => None;
  }

  /**
   The printed increments of a generated function change exactly the state variables of the counters they
   were generated for, in order, if and only if none of these counters has a `$$` in its name, is named
   like an input of the function, or is named like an event parameter declared before it.
   */
  lemma {:induction false} PrintedIncrementsIff(
    defs: seq<FunctionDef>, events: seq<EventDef>, structs: seq<string>, def: FunctionDef)
    ensures
      var c := ContextOf(defs, events, structs);
      match MockOf(def, Body(def), c)
      case Mock(f) =>
        PrintedIncrements(f, DeclaredCounters(defs)) == AsVariables(CountersUsed(f)) <==> KeepsCounters(def, c)
      case _ => true
  {
    hide MockOf, ContextOf, DeclaredCounters, DeclaresInputs, KeepsItsName, KeepsCounter;
    var c := ContextOf(defs, events, structs);
    match MockOf(def, Body(def), c)
    case Mock(f) =>
      var ds := f.declarations;
      assert ds[..|ds|] == ds;
      forall name | name in UsedIn(ds)
        ensures name in DeclaredCounters(defs)
      {
        UsedIsDeclared(defs, events, structs, def, name);
      }
      IncrementsBeforeIff(f, DeclaredCounters(defs), |ds|);
      MockDeclaresInputs(def, c);
      MockHasLength(def, c, f);
      forall i | 0 <= i < |ds|
        ensures KeepsItsName(f, i) <==> KeepsCounter(def, c, i)
      {
        KeepsItsNameIff(def, c, f, i);
      }
    case _ =>
  }

  lemma MockHasLength(def: FunctionDef, c: Context, f: MockFunction)
    requires DeclaresInputs(def, c, f)
    ensures |f.declarations| == |ParametersToDeclare(def, c)|
  {
  }
}
