/**
 When a printed mock function is well scoped: every argument of every emit is an input or is declared
 exactly once before the first emit, and no declaration hides an input.
 */
module MockScoping {
  import opened Lists
  import opened Wrappers
  import opened SyntaxTree
  import opened MockScan
  import opened EmitScan
  import opened MockFunctions

  // ---------------------------------------------------------------------------------------------
  // Printing
  // ---------------------------------------------------------------------------------------------

  /**
   The declarations are put in place by String.replace, which prints every `$$` of its replacement as
   `$`. The header and the emits are printed as they are.
   */
  function Collapse(s: string): (t: string)
    ensures |t| <= |s|
    ensures |t| == |s| ==> t == s
  {
    if |s| < 2 then s
    else if s[0] == '$' && s[1] == '$' then "$" + Collapse(s[2..])
    else [s[0]] + Collapse(s[1..])
  }

  /** What a caller can look for: two dollar signs in a row. */
  predicate HasDoubleDollar(s: string) {
    exists i :: 0 <= i < |s| - 1 && s[i] == '$' && s[i + 1] == '$'
  }

  lemma {:induction false} CollapseKeepsIff(s: string)
    ensures Collapse(s) == s <==> !HasDoubleDollar(s)
    decreases |s|
  {
    if |s| >= 2 && !(s[0] == '$' && s[1] == '$') {
      var rest := s[1..];
      CollapseKeepsIff(rest);
      if HasDoubleDollar(rest) {
        var i :| 0 <= i < |rest| - 1 && rest[i] == '$' && rest[i + 1] == '$';
        assert s[i + 1] == '$' && s[i + 2] == '$';
      }
      if i :| 0 <= i < |s| - 1 && s[i] == '$' && s[i + 1] == '$' {
        assert i > 0 && rest[i - 1] == '$' && rest[i] == '$';
      }
      assert Collapse(s)[1..] == Collapse(rest);
    }
  }

  function Dollars(n: nat): (s: string)
    ensures |s| == n && forall i :: 0 <= i < n ==> s[i] == '$'
  {
    seq(n, i => '$')
  }

  lemma {:induction false} CollapseFirst(s: string)
    requires s != "" && (s[0] != '$' || |s| == 1 || s[1] != '$')
    ensures Collapse(s) == [s[0]] + Collapse(s[1..])
  {
  }

  lemma {:induction false} CollapseKeepsText(before: string, rest: string)
    requires '$' !in before
    ensures Collapse(before + rest) == before + Collapse(rest)
    decreases |before|
  {
    hide Collapse;
    if before == "" {
      assert before + rest == rest;
    } else {
      var s := before + rest;
      assert before[0] in before && s[0] == before[0] && s[1..] == before[1..] + rest;
      CollapseKeepsText(before[1..], rest);
      CollapseFirst(s);
    }
  }

  lemma CollapsePair(rest: string)
    ensures Collapse("$$" + rest) == "$" + Collapse(rest)
  {
    assert ("$$" + rest)[2..] == rest;
  }

  lemma {:induction false} CollapseDollars(n: nat, after: string)
    requires after == "" || after[0] != '$'
    ensures Collapse(Dollars(n) + after) == Dollars((n + 1) / 2) + Collapse(after)
    decreases n
  {
    hide Collapse;
    if n == 0 {
      assert Dollars(0) + after == after;
    } else if n == 1 {
      assert Dollars(1) + after == "$" + after && ("$" + after)[1..] == after;
      CollapseFirst("$" + after);
    } else {
      CollapseDollars(n - 2, after);
      CollapsePair(Dollars(n - 2) + after);
      assert Dollars(n) + after == "$$" + (Dollars(n - 2) + after);
      assert "$" + Dollars((n - 1) / 2) == Dollars((n + 1) / 2);
    }
  }

  /** Replacement halves every run of dollar signs, rounding up, and keeps all other text. */
  lemma {:induction false} CollapseHalvesDollars(before: string, n: nat, after: string)
    requires '$' !in before && (after == "" || after[0] != '$')
    ensures Collapse(before + (Dollars(n) + after)) == before + (Dollars((n + 1) / 2) + Collapse(after))
  {
    hide Collapse;
    CollapseKeepsText(before, Dollars(n) + after);
    CollapseDollars(n, after);
  }

  /** A missing name prints as `null` in a declaration and as nothing in an argument list. */
  function DeclaredText(name: Option<string>): string {
    match name
    case Some(s) => Collapse(s)
    case None => "null"
  }

  function ArgumentText(name: Option<string>): string {
    match name
    case Some(s) => s
    case None => ""
  }

  function DeclaredTexts(f: MockFunction): (texts: seq<string>)
    ensures |texts| == |f.declarations|
    ensures forall i :: 0 <= i < |texts| ==> texts[i] == DeclaredText(f.declarations[i].name)
  {
    seq(|f.declarations|, i requires 0 <= i < |f.declarations| => DeclaredText(f.declarations[i].name))
  }

  /** The printed argument names an input or one of the declared variables. */
  predicate Resolves(f: MockFunction, arg: Option<string>) {
    ArgumentText(arg) != "" && (ArgumentText(arg) in f.parameterNames || ArgumentText(arg) in DeclaredTexts(f))
  }

  predicate WellScoped(f: MockFunction) {
    && (forall e :: e in f.emits ==> forall a :: a in e.args ==> Resolves(f, a))
    && NoDuplicates(DeclaredTexts(f))
    && (forall t :: t in DeclaredTexts(f) ==> t !in f.parameterNames)
  }

  /** A parameter without a name is declared as a variable called null, and emitted as nothing. */
  lemma UnnamedIsNull(f: MockFunction, i: nat)
    requires i < |f.declarations| && f.declarations[i].name == None
    ensures DeclaredTexts(f)[i] == "null" && ArgumentText(f.declarations[i].name) == ""
    ensures !Resolves(f, f.declarations[i].name)
  {
  }

  /** A name that prints the same everywhere. */
  predicate Plain(name: Option<string>) {
    name.Some? && name.value != "" && !HasDoubleDollar(name.value)
  }

  predicate Printable(name: Option<string>, inputs: seq<string>) {
    name.Some? && name.value != "" && (name.value in inputs || Plain(name))
  }

  // ---------------------------------------------------------------------------------------------
  // What is declared
  // ---------------------------------------------------------------------------------------------

  lemma {:induction false} FreshNames(parameters: seq<Parameter>, inputs: seq<string>)
    ensures NoDuplicates(Names(Fresh(parameters, inputs)))
    ensures forall n :: n in Names(Fresh(parameters, inputs)) <==> n in Names(parameters) && !IsInput(n, inputs)
  {
    if parameters != [] {
      var init, last := parameters[..|parameters| - 1], parameters[|parameters| - 1];
      FreshNames(init, inputs);
      NamesOfSnoc(init, last);
      NamesOfSnoc(Fresh(init, inputs), last);
      assert parameters == init + [last];
      FreshSnoc(init, last, inputs);
    }
  }

  /** The parameters to declare are those that are no input and are the first of their name, in their order. */
  lemma {:induction false} FreshAreFirst(parameters: seq<Parameter>, inputs: seq<string>)
    ensures forall p :: p in Fresh(parameters, inputs) <==> !IsInput(p.name, inputs) && IsFirstOfName(parameters, p)
    ensures
      var kept, names := Names(Fresh(parameters, inputs)), Names(parameters);
      forall i, j :: 0 <= i < j < |kept| ==> FirstIndex(names, kept[i]) < FirstIndex(names, kept[j])
  {
    hide IsInput, IsFirstOfName, Fresh, FirstIndex;
    NoneIsFresh(inputs);
    if parameters != [] {
      var init, last := parameters[..|parameters| - 1], parameters[|parameters| - 1];
      FreshAreFirst(init, inputs);
      FreshNames(init, inputs);
      FreshSnoc(init, last, inputs);
      NamesOfSnoc(init, last);
      NamesOfSnoc(Fresh(init, inputs), last);
      assert parameters == init + [last];
      forall p
        ensures IsFirstOfName(parameters, p) <==>
          IsFirstOfName(init, p) || (p == last && last.name !in Names(init))
      {
        FirstOfNameSnoc(init, last, p);
      }
      forall name
        ensures name in Names(init) ==> FirstIndex(Names(parameters), name) == FirstIndex(Names(init), name) < |init|
        ensures name !in Names(init) ==> FirstIndex(Names(parameters), name) >= |init|
      {
        FirstIndexOfPrefix(Names(init), last.name, name);
      }
      assert forall n :: n in Names(Fresh(init, inputs)) ==> n in Names(init);
    }
  }

  lemma NoneIsFresh(inputs: seq<string>)
    ensures Fresh([], inputs) == []
    ensures forall p :: !IsFirstOfName([], p)
  {
  }

  lemma FirstOfNameSnoc(init: seq<Parameter>, last: Parameter, p: Parameter)
    ensures IsFirstOfName(init + [last], p) <==> IsFirstOfName(init, p) || (p == last && last.name !in Names(init))
  {
    hide FirstIndex;
    NamesOfSnoc(init, last);
    FirstIndexOfPrefix(Names(init), last.name, p.name);
    var i, k := FirstIndex(Names(init), p.name), FirstIndex(Names(init + [last]), p.name);
    if p.name in Names(init) {
      assert (init + [last])[i] == init[i];
    } else {
      assert i == |init|;
      assert p.name == last.name ==> Names(init + [last])[|init|] == p.name && k == |init|;
    }
  }

  predicate IsFirstOfName(parameters: seq<Parameter>, p: Parameter) {
    var k := FirstIndex(Names(parameters), p.name);
    k < |parameters| && parameters[k] == p
  }

  lemma NamesOfSnoc(parameters: seq<Parameter>, p: Parameter)
    ensures Names(parameters + [p]) == Names(parameters) + [p.name]
  {
  }

  lemma {:induction false} DeclaredNames(parameters: seq<Parameter>, c: Context, counters: seq<string>)
    requires DeclareAll(parameters, c, counters).Some?
    ensures
      var ds := DeclareAll(parameters, c, counters).value;
      |ds| == |parameters| && forall i :: 0 <= i < |ds| ==> Declare(parameters[i], c, counters) == Some(ds[i])
  {
    if parameters != [] {
      DeclaredNames(parameters[..|parameters| - 1], c, counters);
    }
  }

  lemma {:induction false} ArgumentsAreParameters(events: seq<EventDef>, n: Option<string>)
    ensures n in Names(AllParameters(events)) <==> exists i :: 0 <= i < |events| && n in Names(events[i].parameters)
  {
    if events != [] {
      var init, last := events[..|events| - 1], events[|events| - 1];
      ArgumentsAreParameters(init, n);
      assert Names(AllParameters(events)) == Names(AllParameters(init)) + Names(last.parameters);
      if n in Names(AllParameters(init)) {
        var i :| 0 <= i < |init| && n in Names(init[i].parameters);
        assert events[i] == init[i];
      }
      if n in Names(last.parameters) {
        assert events[|events| - 1] == last;
      }
      if i :| 0 <= i < |events| && n in Names(events[i].parameters) {
        if i < |init| {
          assert init[i] == events[i];
        }
      }
    }
  }

  predicate IsArgument(f: MockFunction, n: Option<string>) {
    exists i :: 0 <= i < |f.emits| && n in f.emits[i].args
  }

  predicate IsDeclared(f: MockFunction, n: Option<string>) {
    exists i :: 0 <= i < |f.declarations| && f.declarations[i].name == n
  }

  /** Exactly the arguments that are not inputs are declared, each once. */
  ghost predicate DeclaresArguments(f: MockFunction) {
    && (forall i, j :: 0 <= i < j < |f.declarations| ==> f.declarations[i].name != f.declarations[j].name)
    && (forall d :: d in f.declarations ==> !IsInput(d.name, f.parameterNames) && IsArgument(f, d.name))
    && (forall n :: IsArgument(f, n) && !IsInput(n, f.parameterNames) ==> IsDeclared(f, n))
  }

  /** The declarations of a mock: one for every argument of its emits that is not an input. */
  lemma {:induction false} MockDeclarations(def: FunctionDef, statements: seq<Node>, c: Context)
    ensures match MockOf(def, statements, c)
      case Mock(f) => f.parameterNames == ParameterNames(def.parameters) && DeclaresArguments(f)
      case _ => true
  {
    hide Emits, Increments, Dedup, TypesSupported, ParameterNames, Declare, AllParameters, Fresh, DeclareAll;
    if MockOf(def, statements, c).Mock? {
      var f := MockOf(def, statements, c).f;
      var events := EventsOf(Emits(statements), c.events).value;
      var inputs, all := ParameterNames(def.parameters), AllParameters(events);
      var kept, counters := Fresh(all, inputs), Dedup(Increments(statements));
      FreshNames(all, inputs);
      DeclaredNames(kept, c, counters);
      DeclareKeepsNames(kept, f.declarations, c, counters);
      forall n
        ensures IsArgument(f, n) <==> n in Names(all)
      {
        ArgumentsAreParameters(events, n);
        EmitArguments(events, n);
      }
      NamesAreDeclared(f, kept, all, inputs);
    }
  }

  lemma NamesAreDeclared(f: MockFunction, kept: seq<Parameter>, all: seq<Parameter>, inputs: seq<string>)
    requires f.parameterNames == inputs && |f.declarations| == |kept| && NoDuplicates(Names(kept))
    requires forall i :: 0 <= i < |kept| ==> f.declarations[i].name == Names(kept)[i]
    requires forall n :: n in Names(kept) <==> n in Names(all) && !IsInput(n, inputs)
    requires forall n :: IsArgument(f, n) <==> n in Names(all)
    ensures DeclaresArguments(f)
  {
    hide IsArgument, IsInput;
    forall d | d in f.declarations
      ensures !IsInput(d.name, f.parameterNames) && IsArgument(f, d.name)
    {
      var i :| 0 <= i < |f.declarations| && f.declarations[i] == d;
      assert Names(kept)[i] in Names(kept);
    }
    forall n | IsArgument(f, n) && !IsInput(n, f.parameterNames)
      ensures IsDeclared(f, n)
    {
      var i :| 0 <= i < |Names(kept)| && Names(kept)[i] == n;
      assert f.declarations[i].name == n;
    }
  }

  lemma EmitArguments(events: seq<EventDef>, n: Option<string>)
    ensures (exists i :: 0 <= i < |EmitAll(events)| && n in EmitAll(events)[i].args)
      <==> exists i :: 0 <= i < |events| && n in Names(events[i].parameters)
  {
    assert forall i :: 0 <= i < |events| ==> EmitAll(events)[i].args == Names(events[i].parameters);
  }

  lemma DeclareKeepsNames(parameters: seq<Parameter>, ds: seq<Declaration>, c: Context, counters: seq<string>)
    requires |ds| == |parameters|
    requires forall i :: 0 <= i < |ds| ==> Declare(parameters[i], c, counters) == Some(ds[i])
    ensures forall i :: 0 <= i < |ds| ==> ds[i].name == Names(parameters)[i]
  {
  }

  // ---------------------------------------------------------------------------------------------
  // What is emitted
  // ---------------------------------------------------------------------------------------------

  /**
   A mock emits one event for each emit statement the scanner found, in that order: the first event of that
   name, with the names of its parameters for arguments.
   */
  lemma {:induction false} EmitsOneForOne(def: FunctionDef, statements: seq<Node>, c: Context)
    requires MockOf(def, statements, c).Mock?
    ensures
      var f, emits := MockOf(def, statements, c).f, Emits(statements);
      |f.emits| == |emits| && forall i :: 0 <= i < |emits| ==> EmitMatches(f.emits[i], emits[i], c.events)
  {
    hide Emits, Increments, Dedup, TypesSupported, ParameterNames, Fresh, DeclareAll, AllParameters, EventName,
      FindEvent;
    EventsMatchEmits(Emits(statements), c.events);
  }

  predicate EmitMatches(emit: Emit, statement: Node, events: seq<EventDef>) {
    match FindEvent(events, EventName(statement))
    case Some(e) => Str(e.name) == EventName(statement) && emit == Emit(e.name, Names(e.parameters))
    case None => false
  }

  lemma {:induction false} EventsMatchEmits(emits: seq<Node>, events: seq<EventDef>)
    requires EventsOf(emits, events).Some?
    ensures
      var found := EventsOf(emits, events).value;
      && |found| == |emits|
      && forall i :: 0 <= i < |emits| ==>
           FindEvent(events, EventName(emits[i])) == Some(found[i]) && Str(found[i].name) == EventName(emits[i])
  {
    hide EventName;
    if emits != [] {
      var init, last := emits[..|emits| - 1], emits[|emits| - 1];
      EventsMatchEmits(init, events);
      FoundByName(events, EventName(last));
      var found := EventsOf(emits, events).value;
      forall i | 0 <= i < |emits|
        ensures FindEvent(events, EventName(emits[i])) == Some(found[i]) && Str(found[i].name) == EventName(emits[i])
      {
        if i < |init| {
          assert emits[i] == init[i];
        }
      }
    }
  }

  lemma {:induction false} FoundByName(events: seq<EventDef>, name: Node)
    ensures FindEvent(events, name).Some? ==> Str(FindEvent(events, name).value.name) == name
  {
    if events != [] {
      FoundByName(events[1..], name);
    }
  }

  // ---------------------------------------------------------------------------------------------
  // Well-scoped exactly when every name prints the same everywhere
  // ---------------------------------------------------------------------------------------------

  lemma {:induction false} LongestUnplain(ds: seq<Declaration>) returns (k: nat)
    requires exists i :: 0 <= i < |ds| && ds[i].name.Some? && !Plain(ds[i].name)
    ensures k < |ds| && ds[k].name.Some? && !Plain(ds[k].name)
    ensures forall i :: 0 <= i < |ds| && ds[i].name.Some? && !Plain(ds[i].name) ==>
      |ds[i].name.value| <= |ds[k].name.value|
  {
    var init := ds[..|ds| - 1];
    if exists i :: 0 <= i < |init| && init[i].name.Some? && !Plain(init[i].name) {
      k := LongestUnplain(init);
      var last := ds[|ds| - 1].name;
      if last.Some? && !Plain(last) && |last.value| > |ds[k].name.value| {
        k := |ds| - 1;
      }
      forall i | 0 <= i < |ds| && ds[i].name.Some? && !Plain(ds[i].name)
        ensures |ds[i].name.value| <= |ds[k].name.value|
      {
        if i < |init| {
          assert init[i] == ds[i];
        }
      }
    } else {
      k := |ds| - 1;
      forall i | 0 <= i < |ds| && ds[i].name.Some? && !Plain(ds[i].name)
        ensures i == k
      {
      }
    }
  }

  lemma {:induction false} ScopedIffPrintable(def: FunctionDef, statements: seq<Node>, c: Context)
    ensures match MockOf(def, statements, c)
      case Mock(f) => WellScoped(f) <==> forall n :: IsArgument(f, n) ==> Printable(n, f.parameterNames)
      case _ => true
  {
    hide MockOf, WellScoped, DeclaresArguments, IsArgument, Printable;
    MockDeclarations(def, statements, c);
    match MockOf(def, statements, c)
    case Mock(f) =>
      if forall n :: IsArgument(f, n) ==> Printable(n, f.parameterNames) {
        PrintableIsWellScoped(f);
      } else {
        var n :| IsArgument(f, n) && !Printable(n, f.parameterNames);
        UnprintableIsNotWellScoped(f, n);
      }
    case _ =>
  }

  lemma PrintableIsWellScoped(f: MockFunction)
    requires DeclaresArguments(f)
    requires forall n :: IsArgument(f, n) ==> Printable(n, f.parameterNames)
    ensures WellScoped(f)
  {
    hide Collapse, HasDoubleDollar;
    var texts := DeclaredTexts(f);
    forall i | 0 <= i < |texts|
      ensures f.declarations[i].name == Some(texts[i]) && texts[i] !in f.parameterNames
    {
      if f.declarations[i].name.Some? {
        CollapseKeepsIff(f.declarations[i].name.value);
      }
      assert f.declarations[i] in f.declarations;
      assert Printable(f.declarations[i].name, f.parameterNames);
    }
    forall e, a | e in f.emits && a in e.args
      ensures Resolves(f, a)
    {
      assert IsArgument(f, a);
      if !IsInput(a, f.parameterNames) {
        var i :| 0 <= i < |f.declarations| && f.declarations[i].name == a;
        assert texts[i] == a.value;
      }
    }
  }

  lemma UnprintableIsNotWellScoped(f: MockFunction, n: Option<string>)
    requires DeclaresArguments(f)
    requires IsArgument(f, n) && !Printable(n, f.parameterNames)
    ensures !WellScoped(f)
  {
    hide Collapse, HasDoubleDollar;
    var e :| 0 <= e < |f.emits| && n in f.emits[e].args;
    assert f.emits[e] in f.emits;
    if n.Some? && n.value != "" {
      var i :| 0 <= i < |f.declarations| && f.declarations[i].name == n;
      var k := LongestUnplain(f.declarations);
      LongestDoesNotResolve(f, k);
    }
  }

  lemma LongestDoesNotResolve(f: MockFunction, k: nat)
    requires DeclaresArguments(f)
    requires k < |f.declarations| && f.declarations[k].name.Some? && !Plain(f.declarations[k].name)
    requires forall i :: 0 <= i < |f.declarations| && f.declarations[i].name.Some? && !Plain(f.declarations[i].name) ==>
      |f.declarations[i].name.value| <= |f.declarations[k].name.value|
    ensures !WellScoped(f)
  {
    hide Collapse, HasDoubleDollar;
    var name := f.declarations[k].name;
    CollapseKeepsIff(name.value);
    assert f.declarations[k] in f.declarations;
    var e :| 0 <= e < |f.emits| && name in f.emits[e].args;
    assert f.emits[e] in f.emits;
    if Resolves(f, name) {
      var i :| 0 <= i < |f.declarations| && DeclaredText(f.declarations[i].name) == name.value;
      if f.declarations[i].name.Some? {
        CollapseKeepsIff(f.declarations[i].name.value);
      }
    }
  }

  /** All parameters of the emitted event have names, and those that are not inputs are free of `$$`. */
  predicate EventIsPrintable(emit: Node, events: seq<EventDef>, inputs: seq<string>) {
    match FindEvent(events, EventName(emit))
    case Some(e) => forall n :: n in Names(e.parameters) ==> Printable(n, inputs)
    case None => true
  }

  /**
   The mock of a function is well scoped if and only if every event the function emits has only named
   parameters and every one of them that is not an input of the function is free of `$$`.
   */
  lemma {:induction false} WellScopedIff(def: FunctionDef, statements: seq<Node>, c: Context)
    ensures match MockOf(def, statements, c)
      case Mock(f) => WellScoped(f) <==>
        forall i :: 0 <= i < |Emits(statements)| ==>
          EventIsPrintable(Emits(statements)[i], c.events, ParameterNames(def.parameters))
      case _ => true
  {
    hide MockOf, WellScoped, DeclaresArguments, Printable, Names, FindEvent, EventName, Emits, ParameterNames;
    if MockOf(def, statements, c).Mock? {
      var f, emits, inputs := MockOf(def, statements, c).f, Emits(statements), ParameterNames(def.parameters);
      ScopedIffPrintable(def, statements, c);
      MockDeclarations(def, statements, c);
      EmitsOneForOne(def, statements, c);
      forall i | 0 <= i < |emits|
        ensures EventIsPrintable(emits[i], c.events, inputs)
          <==> forall n :: n in f.emits[i].args ==> Printable(n, inputs)
      {
        assert EmitMatches(f.emits[i], emits[i], c.events);
      }
    }
  }
}
