/**
 Runs of the printed mock contract, and exactly when the request ids it reads are sound. A mock function
 increments a counter and reads the id from it, both under the printed name, which may stand for a state
 variable, a parameter or an earlier declaration; when all declarations are made, it emits the ids under
 the names of its event parameters. What is emitted is compared with what was read in EmittedIds. Parameters
 and declared variables are words; other types are not part of this model.
 */
module MockRuns {
  import opened Lists
  import opened Words
  import opened Wrappers
  import opened MockFunctions
  import opened MockScoping
  import opened MockContract
  import opened MockCounters
  import opened RequestIds

  // ---------------------------------------------------------------------------------------------
  // Execution
  // ---------------------------------------------------------------------------------------------

  /** An id: the counter it was generated for, the variable it was read from, and its value. */
  datatype Id = Id(counter: string, variable: Variable, value: nat)

  /** An id argument of an emit: the position of the id among all ids that were read, and the value emitted. */
  datatype EmittedId = EmittedId(id: nat, value: nat)

  /**
   The state variables, the parameters and declared variables of the running function, all ids read so far,
   and all id arguments emitted so far.
   */
  datatype State = State(
    values: map<string, nat>, locals: map<string, nat>, ids: seq<Id>, emitted: seq<EmittedId>)

  /** A call; arguments that are not listed are zero. */
  datatype MockCall = MockCall(f: MockFunction, args: map<string, Word>)

  /** `counter++;` and reading it, with checked arithmetic. None is a revert, or a name that is not declared. */
  function IncrementAndRead(s: State, counter: string): (r: Option<State>)
    ensures r.Some? ==> |r.value.ids| == |s.ids| + 1
  {
    var name := Collapse(counter);
    if name in s.locals then
      var next := s.locals[name] + 1;
      if next >= TWO_256 then None
      else Some(s.(locals := s.locals[name := next], ids := s.ids + [Id(counter, Local, next)]))
    else if name in s.values then
      var next := s.values[name] + 1;
      if next >= TWO_256 then None
      else Some(s.(values := s.values[name := next], ids := s.ids + [Id(counter, StateVariable(name), next)]))
    else None
  }

  function Execute(s: State, d: Declaration): Option<State> {
    match d.form
    case FromCounter(counter) =>
      (match IncrementAndRead(s, counter)
       case None => None
       case Some(t) => Some(t.(locals := t.locals[DeclaredText(d.name) := t.ids[|s.ids|].value])))
    case _ => Some(s.(locals := s.locals[DeclaredText(d.name) := 0]))
  }

  function ExecuteFirst(s: State, f: MockFunction, n: nat): Option<State>
    requires n <= |f.declarations|
  {
    if n == 0 then Some(s)
    else
      match ExecuteFirst(s, f, n - 1)
      case None => None
      case Some(t) => Execute(t, f.declarations[n - 1])
  }

  function Enter(s: State, c: MockCall): State {
    s.(locals := map name | name in c.f.parameterNames :: if name in c.args then c.args[name] else 0)
  }

  /** What an emit carries for an argument: the value of the name as it is printed there. */
  function ArgumentValue(t: State, arg: Option<string>): nat {
    var name := ArgumentText(arg);
    if name in t.locals then t.locals[name] else if name in t.values then t.values[name] else 0
  }

  /** The position, among the ids that these declarations read, of the id declared for an argument. */
  function IdIndex(ds: seq<Declaration>, arg: Option<string>): Option<nat> {
    if ds == [] then None
    else
      var init, last := ds[..|ds| - 1], ds[|ds| - 1];
      if last.name == arg && last.form.FromCounter? then Some(|UsedIn(init)|) else IdIndex(init, arg)
  }

  /** The id arguments among these, with what they carry. */
  function EmitIds(t: State, ds: seq<Declaration>, first: nat, args: seq<Option<string>>): seq<EmittedId> {
    if args == [] then []
    else
      var last := args[|args| - 1];
      EmitIds(t, ds, first, args[..|args| - 1])
      + match IdIndex(ds, last)
        case Some(k) => [EmittedId(first + k, ArgumentValue(t, last))]
        case None => []
  }

  /** The arguments of all emits in order. */
  function AllArguments(emits: seq<Emit>): seq<Option<string>> {
    if emits == [] then [] else AllArguments(emits[..|emits| - 1]) + emits[|emits| - 1].args
  }

  /** The declarations, then the emits. A call that reverts leaves everything as it was. */
  function CallMock(s: State, c: MockCall): State {
    match ExecuteFirst(Enter(s, c), c.f, |c.f.declarations|)
    case Some(t) =>
      State(t.values, map[], t.ids,
            t.emitted + EmitIds(t, c.f.declarations, |s.ids|, AllArguments(c.f.emits)))
    case None => s
  }

  /** A run of the contract whose state variables are these counters. */
  function Run(counters: seq<string>, calls: seq<MockCall>): State {
    if calls == [] then State(map c | c in counters :: InitialValue(c), map[], [], [])
    else CallMock(Run(counters, calls[..|calls| - 1]), calls[|calls| - 1])
  }

  // ---------------------------------------------------------------------------------------------
  // Every state variable is its initial value plus its increments
  // ---------------------------------------------------------------------------------------------

  /** How many of these ids were read from a state variable, which is how often it was incremented. */
  function Hits(ids: seq<Id>, name: string): (n: nat)
    ensures n <= |ids|
  {
    if ids == [] then 0
    else
      Hits(ids[..|ids| - 1], name) + if ids[|ids| - 1].variable == StateVariable(name) then 1 else 0
  }

  ghost predicate IdIsRight(counters: seq<string>, ids: seq<Id>, k: nat)
    requires k < |ids|
  {
    match ids[k].variable
    case StateVariable(name) =>
      && name in counters && name == Collapse(ids[k].counter)
      && ids[k].value == InitialValue(name) + Hits(ids[..k + 1], name)
    case Local => true
    case Undeclared => false
  }

  ghost predicate Consistent(counters: seq<string>, s: State) {
    && s.values.Keys == Members(counters)
    && (forall name :: name in counters ==> s.values[name] == InitialValue(name) + Hits(s.ids, name))
    && forall k :: 0 <= k < |s.ids| ==> IdIsRight(counters, s.ids, k)
  }

  lemma {:induction false} HitsSnoc(ids: seq<Id>, id: Id, name: string)
    ensures Hits(ids + [id], name) == Hits(ids, name) + if id.variable == StateVariable(name) then 1 else 0
  {
  }

  lemma {:induction false} IncrementIsConsistent(counters: seq<string>, s: State, counter: string)
    requires Consistent(counters, s) && IncrementAndRead(s, counter).Some?
    ensures Consistent(counters, IncrementAndRead(s, counter).value)
  {
    hide InitialValue, Collapse;
    var t := IncrementAndRead(s, counter).value;
    var id := t.ids[|s.ids|];
    forall name ensures Hits(t.ids, name) == Hits(s.ids, name) + if id.variable == StateVariable(name) then 1 else 0 {
      HitsSnoc(s.ids, id, name);
    }
    forall k | 0 <= k < |t.ids|
      ensures IdIsRight(counters, t.ids, k)
    {
      if k < |s.ids| {
        assert t.ids[..k + 1] == s.ids[..k + 1];
        assert IdIsRight(counters, s.ids, k);
      } else {
        assert t.ids[..k + 1] == t.ids;
      }
    }
  }

  lemma {:induction false} ExecutionIsConsistent(counters: seq<string>, s: State, f: MockFunction, n: nat)
    requires Consistent(counters, s) && n <= |f.declarations| && ExecuteFirst(s, f, n).Some?
    ensures Consistent(counters, ExecuteFirst(s, f, n).value)
  {
    hide Hits, IdIsRight, InitialValue, IncrementAndRead;
    if n > 0 {
      ExecutionIsConsistent(counters, s, f, n - 1);
      match f.declarations[n - 1].form
      case FromCounter(counter) => IncrementIsConsistent(counters, ExecuteFirst(s, f, n - 1).value, counter);
      case _ =>
    }
  }

  /** After every run, whatever was called and reverted, each state variable and each id read from one is that sum. */
  lemma {:induction false} RunIsConsistent(counters: seq<string>, calls: seq<MockCall>)
    ensures Consistent(counters, Run(counters, calls))
  {
    hide InitialValue;
    if calls != [] {
      var s, c := Run(counters, calls[..|calls| - 1]), calls[|calls| - 1];
      RunIsConsistent(counters, calls[..|calls| - 1]);
      if ExecuteFirst(Enter(s, c), c.f, |c.f.declarations|).Some? {
        ExecutionIsConsistent(counters, Enter(s, c), c.f, |c.f.declarations|);
      }
    }
  }

  // ---------------------------------------------------------------------------------------------
  // Which ids a call hands out
  // ---------------------------------------------------------------------------------------------

  /** Ids generated for these counters and read from these variables, in order. */
  ghost predicate ReadFrom(ids: seq<Id>, names: seq<string>, variables: seq<Variable>) {
    && |ids| == |names| == |variables|
    && forall k :: 0 <= k < |ids| ==>
         ids[k].counter == names[k] && ids[k].variable == variables[k] && !variables[k].Undeclared?
  }

  lemma {:induction false} ReadFromConcat(
    a: seq<Id>, names: seq<string>, variables: seq<Variable>, b: seq<Id>, more: seq<string>, others: seq<Variable>)
    requires ReadFrom(a, names, variables) && ReadFrom(b, more, others)
    ensures ReadFrom(a + b, names + more, variables + others)
  {
  }

  ghost predicate HasExecuted(counters: seq<string>, before: seq<Id>, f: MockFunction, n: nat, t: State)
    requires n <= |f.declarations|
  {
    && t.values.Keys == Members(counters)
    && t.locals.Keys == Members(f.parameterNames) + Members(DeclaredTexts(f)[..n])
    && before <= t.ids
    && ReadFrom(t.ids[|before|..], UsedIn(f.declarations[..n]), IncrementsBefore(f, counters, n))
  }

  lemma {:induction false} ExecuteDeclares(t: State, d: Declaration)
    requires Execute(t, d).Some?
    ensures
      var u := Execute(t, d).value;
      && u.values.Keys == t.values.Keys
      && u.locals.Keys == t.locals.Keys + {DeclaredText(d.name)}
      && match d.form
         case FromCounter(counter) =>
           var name := Collapse(counter);
           && |u.ids| == |t.ids| + 1 && u.ids[..|t.ids|] == t.ids
           && u.ids[|t.ids|].counter == counter
           && u.ids[|t.ids|].variable == (if name in t.locals then Local else StateVariable(name))
           && (name in t.locals || name in t.values)
         case _ => u.ids == t.ids
  {
    hide Collapse, DeclaredText;
  }

  lemma {:induction false} StepReads(
    counters: seq<string>, before: seq<Id>, f: MockFunction, n: nat, t: State, counter: string, u: State)
    requires n < |f.declarations| && HasExecuted(counters, before, f, n, t)
    requires f.declarations[n].form == FromCounter(counter)
    requires |u.ids| == |t.ids| + 1 && u.ids[..|t.ids|] == t.ids
    requires u.ids[|t.ids|].counter == counter
    requires u.ids[|t.ids|].variable == Refers(f, counters, n, Collapse(counter)) != Undeclared
    ensures before <= u.ids
    ensures ReadFrom(u.ids[|before|..], UsedIn(f.declarations[..n + 1]), IncrementsBefore(f, counters, n + 1))
  {
    hide Collapse, Refers, DeclaredTexts;
    var id := u.ids[|t.ids|];
    assert f.declarations[..n + 1][..n] == f.declarations[..n];
    assert u.ids[|before|..] == t.ids[|before|..] + [id];
    ReadFromConcat(
      t.ids[|before|..], UsedIn(f.declarations[..n]), IncrementsBefore(f, counters, n),
      [id], [counter], [id.variable]);
  }

  lemma {:induction false} StepHasExecuted(counters: seq<string>, before: seq<Id>, f: MockFunction, n: nat, t: State)
    requires n < |f.declarations| && HasExecuted(counters, before, f, n, t)
    requires Execute(t, f.declarations[n]).Some?
    ensures HasExecuted(counters, before, f, n + 1, Execute(t, f.declarations[n]).value)
  {
    hide Collapse, DeclaredText, Execute, ReadFrom;
    var d, u := f.declarations[n], Execute(t, f.declarations[n]).value;
    ExecuteDeclares(t, d);
    assert f.declarations[..n + 1][..n] == f.declarations[..n];
    assert DeclaredTexts(f)[..n + 1] == DeclaredTexts(f)[..n] + [DeclaredText(d.name)];
    match d.form
    case FromCounter(counter) =>
      assert Collapse(counter) in t.locals <==>
        Collapse(counter) in f.parameterNames || Collapse(counter) in DeclaredTexts(f)[..n];
      StepReads(counters, before, f, n, t, counter, u);
    case _ =>
      assert UsedIn(f.declarations[..n + 1]) == UsedIn(f.declarations[..n]);
      assert IncrementsBefore(f, counters, n + 1) == IncrementsBefore(f, counters, n);
  }

  lemma {:induction false} FirstHaveExecuted(counters: seq<string>, s: State, c: MockCall, n: nat)
    requires s.values.Keys == Members(counters) && n <= |c.f.declarations|
    requires ExecuteFirst(Enter(s, c), c.f, n).Some?
    ensures HasExecuted(counters, s.ids, c.f, n, ExecuteFirst(Enter(s, c), c.f, n).value)
  {
    hide Execute, Refers;
    if n > 0 {
      FirstHaveExecuted(counters, s, c, n - 1);
      StepHasExecuted(counters, s.ids, c.f, n - 1, ExecuteFirst(Enter(s, c), c.f, n - 1).value);
    }
  }

  lemma {:induction false} CallIds(counters: seq<string>, s: State, c: MockCall)
    requires s.values.Keys == Members(counters)
    ensures s.ids <= CallMock(s, c).ids
    ensures ExecuteFirst(Enter(s, c), c.f, |c.f.declarations|) == None ==> CallMock(s, c) == s
    ensures ExecuteFirst(Enter(s, c), c.f, |c.f.declarations|).Some? ==>
      ReadFrom(CallMock(s, c).ids[|s.ids|..], CountersUsed(c.f), PrintedIncrements(c.f, counters))
  {
    hide ExecuteFirst, UsedIn, IncrementsBefore;
    if ExecuteFirst(Enter(s, c), c.f, |c.f.declarations|).Some? {
      FirstHaveExecuted(counters, s, c, |c.f.declarations|);
      assert c.f.declarations[..|c.f.declarations|] == c.f.declarations;
    }
  }

  lemma {:induction false} IncrementsLength(f: MockFunction, counters: seq<string>, n: nat)
    requires n <= |f.declarations|
    ensures |IncrementsBefore(f, counters, n)| == |UsedIn(f.declarations[..n])| <= n
  {
    if n > 0 {
      assert f.declarations[..n][..n - 1] == f.declarations[..n - 1];
      IncrementsLength(f, counters, n - 1);
    }
  }

  /** The declaration that an increment belongs to. */
  lemma {:induction false} DeclarationOfIncrement(f: MockFunction, counters: seq<string>, n: nat, k: nat)
    returns (i: nat)
    requires n <= |f.declarations| && k < |UsedIn(f.declarations[..n])|
    ensures k < |IncrementsBefore(f, counters, n)| && i < n
    ensures f.declarations[i].form == FromCounter(UsedIn(f.declarations[..n])[k])
    ensures IncrementsBefore(f, counters, n)[k] == Refers(f, counters, i, Collapse(UsedIn(f.declarations[..n])[k]))
  {
    hide Refers, Collapse;
    IncrementsLength(f, counters, n);
    IncrementsLength(f, counters, n - 1);
    assert f.declarations[..n][..n - 1] == f.declarations[..n - 1];
    if k < |UsedIn(f.declarations[..n - 1])| {
      i := DeclarationOfIncrement(f, counters, n - 1, k);
    } else {
      i := n - 1;
    }
  }

  /** The increment of a declaration. */
  lemma {:induction false} IncrementOfDeclaration(
    f: MockFunction, counters: seq<string>, n: nat, i: nat, counter: string)
    returns (k: nat)
    requires i < n <= |f.declarations| && f.declarations[i].form == FromCounter(counter)
    ensures k < |UsedIn(f.declarations[..n])| == |IncrementsBefore(f, counters, n)|
    ensures UsedIn(f.declarations[..n])[k] == counter
    ensures IncrementsBefore(f, counters, n)[k] == Refers(f, counters, i, Collapse(counter))
  {
    hide Refers, Collapse;
    IncrementsLength(f, counters, n);
    IncrementsLength(f, counters, n - 1);
    assert f.declarations[..n][..n - 1] == f.declarations[..n - 1];
    if i < n - 1 {
      k := IncrementOfDeclaration(f, counters, n - 1, i, counter);
    } else {
      k := |UsedIn(f.declarations[..n - 1])|;
    }
  }

  // ---------------------------------------------------------------------------------------------
  // Sound ids
  // ---------------------------------------------------------------------------------------------

  /** Each id of a request type is used once, and shifted right by 248 bits it is the type. */
  ghost predicate IdsAreSound(ids: seq<Id>) {
    && (forall i, j :: 0 <= i < j < |ids| && IsRequestCounter(ids[i].counter) && IsRequestCounter(ids[j].counter) ==>
          ids[i].value != ids[j].value)
    && (forall i :: 0 <= i < |ids| && IsRequestCounter(ids[i].counter) ==>
          ids[i].value / SHIFTED == RequestType(ids[i].counter))
  }

  /** Fewer than 2^248 increments of every state variable. */
  ghost predicate InRange(ids: seq<Id>) {
    forall name :: Hits(ids, name) < SHIFTED
  }

  ghost predicate CallsOf(mocks: seq<MockFunction>, calls: seq<MockCall>) {
    forall c :: c in calls ==> c.f in mocks
  }

  /** In every run of these functions, with any arguments, in any order and any number, all ids are read soundly. */
  ghost predicate ReadsAlwaysSound(mocks: seq<MockFunction>, counters: seq<string>) {
    forall calls :: CallsOf(mocks, calls) && InRange(Run(counters, calls).ids) ==> IdsAreSound(Run(counters, calls).ids)
  }

  ghost predicate IsUsed(mocks: seq<MockFunction>, counter: string) {
    exists f :: f in mocks && counter in CountersUsed(f)
  }

  ghost predicate NoAlias(mocks: seq<MockFunction>) {
    forall c, d :: IsUsed(mocks, c) && IsUsed(mocks, d) && SameRequest(c, d) ==> c == d
  }

  predicate IsRequest(form: Form) {
    form.FromCounter? && IsRequestCounter(form.counter)
  }

  /** Every id of a request type is read from its counter. */
  predicate RequestsKeepTheirNames(f: MockFunction) {
    forall i :: 0 <= i < |f.declarations| && IsRequest(f.declarations[i].form) ==> KeepsItsName(f, i)
  }

  // Names of request counters have no dollar sign, so nothing else is printed as one of them.

  lemma {:induction false} CollapseHasDollar(s: string)
    requires '$' in s
    ensures '$' in Collapse(s)
    decreases |s|
  {
    if |s| >= 2 && !(s[0] == '$' && s[1] == '$') {
      assert s == [s[0]] + s[1..];
      if s[0] != '$' {
        CollapseHasDollar(s[1..]);
      }
      assert Collapse(s) == [s[0]] + Collapse(s[1..]);
    }
  }

  lemma CollapseOnto(s: string, name: string)
    requires '$' !in name
    ensures Collapse(s) == name <==> s == name
  {
    if '$' in s {
      CollapseHasDollar(s);
    } else {
      CollapseKeepsIff(s);
    }
  }

  lemma RequestHasNoDollar(counter: string)
    requires IsRequestCounter(counter)
    ensures '$' !in counter
  {
    var clean := CleanName(counter);
    NoTypeHasDollar(clean);
    assert counter == clean || counter == clean + "Counter";
  }

  lemma NoTypeHasDollar(name: string)
    requires name in REQUEST_TYPES
    ensures '$' !in name
  {
    assert name in ["publicDecryption", "userDecryption", "prepKeygen", "key", "crs", "keyReshare"];
  }

  // ---------------------------------------------------------------------------------------------
  // Own names and no alias are enough
  // ---------------------------------------------------------------------------------------------

  /** Ids of request types are read from their own state variables. */
  ghost predicate Own(mocks: seq<MockFunction>, ids: seq<Id>) {
    forall k :: 0 <= k < |ids| && IsRequestCounter(ids[k].counter) ==>
      ids[k].variable == StateVariable(ids[k].counter) && IsUsed(mocks, ids[k].counter)
  }

  lemma {:induction false} UsedLength(f: MockFunction, counters: seq<string>)
    ensures |PrintedIncrements(f, counters)| == |CountersUsed(f)| <= |f.declarations|
  {
    assert f.declarations[..|f.declarations|] == f.declarations;
    IncrementsLength(f, counters, |f.declarations|);
  }

  lemma {:induction false} OwnVariable(f: MockFunction, counters: seq<string>, k: nat)
    requires RequestsKeepTheirNames(f)
    requires k < |CountersUsed(f)| == |PrintedIncrements(f, counters)| && IsRequestCounter(CountersUsed(f)[k])
    ensures PrintedIncrements(f, counters)[k] in [StateVariable(CountersUsed(f)[k]), Undeclared]
  {
    hide Collapse, UsedIn, IncrementsBefore, IsRequestCounter;
    var counter := CountersUsed(f)[k];
    assert f.declarations[..|f.declarations|] == f.declarations;
    var i := DeclarationOfIncrement(f, counters, |f.declarations|, k);
    assert KeepsItsName(f, i);
    CollapseKeepsIff(counter);
    assert forall j :: 0 <= j < i ==> DeclaredTexts(f)[..i][j] == DeclaredText(f.declarations[j].name);
    assert Refers(f, counters, i, counter) != Local;
  }

  lemma {:induction false} OwnInCall(mocks: seq<MockFunction>, counters: seq<string>, f: MockFunction, ids: seq<Id>)
    requires f in mocks && RequestsKeepTheirNames(f)
    requires ReadFrom(ids, CountersUsed(f), PrintedIncrements(f, counters))
    ensures Own(mocks, ids)
  {
    hide CountersUsed, PrintedIncrements, IsRequestCounter, RequestsKeepTheirNames;
    forall k | 0 <= k < |ids| && IsRequestCounter(ids[k].counter)
      ensures ids[k].variable == StateVariable(ids[k].counter) && IsUsed(mocks, ids[k].counter)
    {
      OwnVariable(f, counters, k);
      assert ids[k].counter in CountersUsed(f);
    }
  }

  lemma {:induction false} OwnInRun(mocks: seq<MockFunction>, counters: seq<string>, calls: seq<MockCall>)
    requires CallsOf(mocks, calls) && forall f :: f in mocks ==> RequestsKeepTheirNames(f)
    ensures Own(mocks, Run(counters, calls).ids)
  {
    hide CallMock, IsRequestCounter, IsUsed, RequestsKeepTheirNames, ReadFrom;
    if calls != [] {
      var init, c := calls[..|calls| - 1], calls[|calls| - 1];
      assert c in calls && forall d :: d in init ==> d in calls;
      OwnInRun(mocks, counters, init);
      var s, t := Run(counters, init), Run(counters, calls);
      RunIsConsistent(counters, init);
      CallIds(counters, s, c);
      if ExecuteFirst(Enter(s, c), c.f, |c.f.declarations|).Some? {
        var newIds := t.ids[|s.ids|..];
        OwnInCall(mocks, counters, c.f, newIds);
        assert t.ids == s.ids + newIds;
      }
    }
  }

  lemma {:induction false} HitsGrow(ids: seq<Id>, k: nat, name: string)
    requires k <= |ids|
    ensures Hits(ids[..k], name) <= Hits(ids, name)
  {
    if k < |ids| {
      HitsGrow(ids[..|ids| - 1], k, name);
      assert ids[..|ids| - 1][..k] == ids[..k];
    } else {
      assert ids[..k] == ids;
    }
  }

  /** A later read of the same variable has a larger count. */
  lemma {:induction false} LaterHits(ids: seq<Id>, i: nat, j: nat, name: string)
    requires i < j < |ids| && ids[j].variable == StateVariable(name)
    ensures Hits(ids[..i + 1], name) < Hits(ids[..j + 1], name)
  {
    HitsGrow(ids[..j], i + 1, name);
    assert ids[..j][..i + 1] == ids[..i + 1];
    assert ids[..j + 1] == ids[..j] + [ids[j]];
    HitsSnoc(ids[..j], ids[j], name);
  }

  lemma {:induction false} OwnIdsAreSound(mocks: seq<MockFunction>, counters: seq<string>, s: State)
    requires Consistent(counters, s) && Own(mocks, s.ids) && InRange(s.ids) && NoAlias(mocks)
    ensures IdsAreSound(s.ids)
  {
    hide Hits, InitialValue, Collapse, IsRequestCounter, CleanName, IsUsed;
    var ids := s.ids;
    forall k | 0 <= k < |ids| && IsRequestCounter(ids[k].counter)
      ensures ids[k].value == InitialValue(ids[k].counter) + Hits(ids[..k + 1], ids[k].counter)
      ensures ids[k].value / SHIFTED == RequestType(ids[k].counter)
    {
      assert IdIsRight(counters, ids, k);
      TypeOfRead(ids, k);
    }
    forall i, j | 0 <= i < j < |ids| && IsRequestCounter(ids[i].counter) && IsRequestCounter(ids[j].counter)
      ensures ids[i].value != ids[j].value
    {
      if ids[i].value == ids[j].value {
        TypesAreDistinct(ids[i].counter, ids[j].counter);
        assert ids[i].counter == ids[j].counter;
        LaterHits(ids, i, j, ids[j].counter);
      }
    }
  }

  lemma {:induction false} TypeOfRead(ids: seq<Id>, k: nat)
    requires k < |ids| && InRange(ids) && IsRequestCounter(ids[k].counter)
    ensures (InitialValue(ids[k].counter) + Hits(ids[..k + 1], ids[k].counter)) / SHIFTED == RequestType(ids[k].counter)
  {
    hide Hits, CleanName;
    HitsGrow(ids, k + 1, ids[k].counter);
    TypeOfId(RequestType(ids[k].counter), Hits(ids[..k + 1], ids[k].counter));
  }

  lemma {:induction false} SoundIfOwn(mocks: seq<MockFunction>, counters: seq<string>)
    requires NoAlias(mocks) && forall f :: f in mocks ==> RequestsKeepTheirNames(f)
    ensures ReadsAlwaysSound(mocks, counters)
  {
    hide Run, IdsAreSound, InRange, NoAlias, RequestsKeepTheirNames, Consistent, Own;
    forall calls | CallsOf(mocks, calls) && InRange(Run(counters, calls).ids)
      ensures IdsAreSound(Run(counters, calls).ids)
    {
      RunIsConsistent(counters, calls);
      OwnInRun(mocks, counters, calls);
      OwnIdsAreSound(mocks, counters, Run(counters, calls));
    }
  }

  // ---------------------------------------------------------------------------------------------
  // They are necessary: calls whose arguments are zero
  // ---------------------------------------------------------------------------------------------

  /**
   The compiler accepts the function: every name it increments or emits is declared, and it declares no name
   twice and none of its parameters again.
   */
  predicate Compiles(f: MockFunction, counters: seq<string>) {
    && (forall i :: 0 <= i < |f.declarations| && f.declarations[i].form.FromCounter? ==>
          Refers(f, counters, i, Collapse(f.declarations[i].form.counter)) != Undeclared)
    && (forall e :: e in f.emits ==> forall arg :: arg in e.args ==>
          ArgumentText(arg) != "" && Refers(f, counters, |f.declarations|, ArgumentText(arg)) != Undeclared)
    && NoDuplicates(DeclaredTexts(f))
    && (forall text :: text in DeclaredTexts(f) ==> text !in f.parameterNames)
  }

  /** The code of a contract is shorter than 2^16 bytes. */
  predicate IsShort(f: MockFunction) {
    |f.declarations| < 0x1_0000
  }

  /** A small number, or a little more than where some state variable started that has been incremented. */
  ghost predicate Derived(ids: seq<Id>, x: nat) {
    || x <= |ids|
    || exists name :: Hits(ids, name) > 0 && IsRequestCounter(name)
                      && InitialValue(name) < x <= InitialValue(name) + |ids|
  }

  ghost predicate Rooted(s: State) {
    && (forall name :: name in s.locals ==> Derived(s.ids, s.locals[name]))
    && (forall k :: 0 <= k < |s.ids| ==> Derived(s.ids, s.ids[k].value))
  }

  lemma {:induction false} DerivedGrows(ids: seq<Id>, id: Id, x: nat)
    requires Derived(ids, x)
    ensures Derived(ids + [id], x) && Derived(ids + [id], x + 1)
  {
    hide IsRequestCounter, InitialValue;
    if x > |ids| {
      var name :| Hits(ids, name) > 0 && IsRequestCounter(name)
                  && InitialValue(name) < x <= InitialValue(name) + |ids|;
      HitsSnoc(ids, id, name);
      assert Hits(ids + [id], name) > 0;
    }
  }

  lemma {:induction false} DerivedFits(ids: seq<Id>, x: nat)
    requires Derived(ids, x) && |ids| < SHIFTED
    ensures x + 1 < TWO_256
  {
    hide IsRequestCounter, InitialValue, Hits;
    if x > |ids| {
      var name :| Hits(ids, name) > 0 && IsRequestCounter(name)
                  && InitialValue(name) < x <= InitialValue(name) + |ids|;
      InitialValueBound(name);
    }
  }

  lemma {:induction false} StateFits(counters: seq<string>, s: State, name: string)
    requires Consistent(counters, s) && name in s.values && |s.ids| < SHIFTED
    ensures s.values[name] + 1 < TWO_256
  {
    hide InitialValue, IdIsRight;
    InitialValueBound(name);
  }

  lemma {:induction false} IncrementSucceeds(counters: seq<string>, s: State, counter: string)
    requires Consistent(counters, s) && Rooted(s) && |s.ids| < SHIFTED
    requires Collapse(counter) in s.locals || Collapse(counter) in s.values
    ensures IncrementAndRead(s, counter).Some?
  {
    hide Consistent, Derived;
    var name := Collapse(counter);
    if name in s.locals {
      DerivedFits(s.ids, s.locals[name]);
    } else {
      StateFits(counters, s, name);
    }
  }

  lemma {:induction false} ReadIsDerived(counters: seq<string>, s: State, counter: string)
    requires Consistent(counters, s) && Rooted(s) && IncrementAndRead(s, counter).Some?
    ensures
      var t := IncrementAndRead(s, counter).value;
      Derived(t.ids, t.ids[|s.ids|].value)
  {
    hide IdIsRight, IsRequestCounter;
    var t, name := IncrementAndRead(s, counter).value, Collapse(counter);
    var id := t.ids[|s.ids|];
    if name in s.locals {
      DerivedGrows(s.ids, id, s.locals[name]);
    } else {
      HitsSnoc(s.ids, id, name);
    }
  }

  lemma {:induction false} IncrementIsRooted(counters: seq<string>, s: State, counter: string)
    requires Consistent(counters, s) && Rooted(s) && IncrementAndRead(s, counter).Some?
    ensures Rooted(IncrementAndRead(s, counter).value)
    ensures Derived(IncrementAndRead(s, counter).value.ids, IncrementAndRead(s, counter).value.ids[|s.ids|].value)
  {
    hide Derived, Consistent, Collapse;
    var t := IncrementAndRead(s, counter).value;
    var id := t.ids[|s.ids|];
    ReadIsDerived(counters, s, counter);
    assert t.ids == s.ids + [id];
    forall x | Derived(s.ids, x)
      ensures Derived(t.ids, x)
    {
      DerivedGrows(s.ids, id, x);
    }
    forall k | 0 <= k < |t.ids|
      ensures Derived(t.ids, t.ids[k].value)
    {
      if k < |s.ids| {
        assert t.ids[k] == s.ids[k];
      }
    }
  }

  /** Everything holds that is needed to go on executing `f`. */
  ghost predicate GoesWell(counters: seq<string>, s: State, f: MockFunction, n: nat, t: State)
    requires n <= |f.declarations|
  {
    Consistent(counters, t) && Rooted(t) && |t.ids| <= |s.ids| + n && HasExecuted(counters, s.ids, f, n, t)
  }

  lemma {:induction false} StepGoesWell(counters: seq<string>, s: State, f: MockFunction, n: nat, t: State)
    requires n < |f.declarations| && GoesWell(counters, s, f, n, t)
    requires Compiles(f, counters) && |s.ids| + |f.declarations| < SHIFTED
    ensures Execute(t, f.declarations[n]).Some?
    ensures GoesWell(counters, s, f, n + 1, Execute(t, f.declarations[n]).value)
  {
    hide Consistent, Derived, IncrementAndRead, ReadFrom, Collapse, DeclaredText;
    var d := f.declarations[n];
    match d.form
    case FromCounter(counter) =>
      var name := Collapse(counter);
      assert Refers(f, counters, n, name) != Undeclared;
      assert name in t.locals || name in t.values by {
        assert name in counters ==> name in Members(counters);
      }
      IncrementSucceeds(counters, t, counter);
      IncrementIsConsistent(counters, t, counter);
      IncrementIsRooted(counters, t, counter);
      LocalsDoNotMatter(counters, IncrementAndRead(t, counter).value, Execute(t, d).value);
      StepHasExecuted(counters, s.ids, f, n, t);
    case _ =>
      LocalsDoNotMatter(counters, t, Execute(t, d).value);
      ZeroIsDerived(t.ids);
      StepHasExecuted(counters, s.ids, f, n, t);
  }

  lemma {:induction false} ZeroIsDerived(ids: seq<Id>)
    ensures Derived(ids, 0)
  {
  }

  lemma {:induction false} LocalsDoNotMatter(counters: seq<string>, s: State, t: State)
    requires Consistent(counters, s) && t.values == s.values && t.ids == s.ids
    ensures Consistent(counters, t)
  {
    hide InitialValue, Hits, IdIsRight;
  }

  lemma {:induction false} ZeroExecutionGoesWell(counters: seq<string>, s: State, f: MockFunction, n: nat)
    requires Consistent(counters, s) && Rooted(s) && n <= |f.declarations|
    requires Compiles(f, counters) && |s.ids| + |f.declarations| < SHIFTED
    ensures ExecuteFirst(Enter(s, MockCall(f, map[])), f, n).Some?
    ensures GoesWell(counters, s, f, n, ExecuteFirst(Enter(s, MockCall(f, map[])), f, n).value)
  {
    hide Compiles, Execute, GoesWell;
    if n > 0 {
      ZeroExecutionGoesWell(counters, s, f, n - 1);
      StepGoesWell(counters, s, f, n - 1, ExecuteFirst(Enter(s, MockCall(f, map[])), f, n - 1).value);
    } else {
      EnterGoesWell(counters, s, f);
    }
  }

  lemma {:induction false} EnterGoesWell(counters: seq<string>, s: State, f: MockFunction)
    requires Consistent(counters, s) && Rooted(s)
    ensures GoesWell(counters, s, f, 0, Enter(s, MockCall(f, map[])))
  {
    hide Derived;
    LocalsDoNotMatter(counters, s, Enter(s, MockCall(f, map[])));
    ZeroIsDerived(s.ids);
  }

  function ZeroCalls(fs: seq<MockFunction>): (calls: seq<MockCall>)
    ensures |calls| == |fs| && forall i :: 0 <= i < |fs| ==> calls[i] == MockCall(fs[i], map[])
  {
    seq(|fs|, i requires 0 <= i < |fs| => MockCall(fs[i], map[]))
  }

  /** The increments of a run of these functions, as scanned and as printed. */
  function Incremented(fs: seq<MockFunction>): seq<string> {
    if fs == [] then [] else Incremented(fs[..|fs| - 1]) + CountersUsed(fs[|fs| - 1])
  }

  function PrintedRun(fs: seq<MockFunction>, counters: seq<string>): seq<Variable> {
    if fs == [] then [] else PrintedRun(fs[..|fs| - 1], counters) + PrintedIncrements(fs[|fs| - 1], counters)
  }

  ghost predicate RunsWell(fs: seq<MockFunction>, counters: seq<string>, t: State) {
    && Consistent(counters, t) && Rooted(t)
    && |t.ids| <= |fs| * 0x1_0000
    && ReadFrom(t.ids, Incremented(fs), PrintedRun(fs, counters))
  }

  /** A short run with zero arguments reverts nowhere and hands out all ids. */
  lemma {:induction false} ZeroRunGoesWell(fs: seq<MockFunction>, counters: seq<string>)
    requires forall f :: f in fs ==> Compiles(f, counters) && IsShort(f)
    requires |fs| <= 0x1_0000
    ensures RunsWell(fs, counters, Run(counters, ZeroCalls(fs)))
  {
    hide Compiles, CountersUsed, PrintedIncrements, ExecuteFirst, Derived, Enter;
    RunIsConsistent(counters, ZeroCalls(fs));
    if fs != [] {
      var init, f := fs[..|fs| - 1], fs[|fs| - 1];
      assert f in fs && forall g :: g in init ==> g in fs;
      ZeroRunGoesWell(init, counters);
      assert ZeroCalls(fs)[..|fs| - 1] == ZeroCalls(init);
      CallGoesWell(init, counters, Run(counters, ZeroCalls(init)), f);
      assert fs == init + [f];
    }
  }

  lemma {:induction false} ZeroCallReads(counters: seq<string>, s: State, f: MockFunction)
    requires Compiles(f, counters) && Consistent(counters, s) && Rooted(s) && |s.ids| + |f.declarations| < SHIFTED
    ensures
      var t := CallMock(s, MockCall(f, map[]));
      s.ids <= t.ids && ReadFrom(t.ids[|s.ids|..], CountersUsed(f), PrintedIncrements(f, counters))
  {
    hide Compiles, CountersUsed, PrintedIncrements, ReadFrom, ExecuteFirst, Rooted, IdIsRight, Hits, CallMock, Enter;
    ZeroExecutionGoesWell(counters, s, f, |f.declarations|);
    CallIds(counters, s, MockCall(f, map[]));
  }

  lemma {:induction false} CallGoesWell(init: seq<MockFunction>, counters: seq<string>, s: State, f: MockFunction)
    requires RunsWell(init, counters, s) && Compiles(f, counters) && IsShort(f) && |init| < 0x1_0000
    ensures RunsWell(init + [f], counters, CallMock(s, MockCall(f, map[])))
  {
    hide Compiles, CountersUsed, PrintedIncrements, Derived, InitialValue, Incremented, PrintedRun, EmitIds,
      AllArguments, ReadFrom, Enter, ExecuteFirst;
    var c := MockCall(f, map[]);
    var t := CallMock(s, c);
    ZeroExecutionGoesWell(counters, s, f, |f.declarations|);
    ZeroCallReads(counters, s, f);
    LocalsDoNotMatter(counters, ExecuteFirst(Enter(s, c), f, |f.declarations|).value, t);
    ReadFromConcat(s.ids, Incremented(init), PrintedRun(init, counters),
                   t.ids[|s.ids|..], CountersUsed(f), PrintedIncrements(f, counters));
    assert t.ids == s.ids + t.ids[|s.ids|..];
    RunOfOneMore(init, f, counters);
  }

  lemma {:induction false} RunOfOneMore(init: seq<MockFunction>, f: MockFunction, counters: seq<string>)
    ensures Incremented(init + [f]) == Incremented(init) + CountersUsed(f)
    ensures PrintedRun(init + [f], counters) == PrintedRun(init, counters) + PrintedIncrements(f, counters)
  {
  }

  // ---------------------------------------------------------------------------------------------
  // Two equal ids
  // ---------------------------------------------------------------------------------------------

  /** The read that brought a state variable to its m-th increment. */
  lemma {:induction false} NthHit(ids: seq<Id>, name: string, m: nat) returns (k: nat)
    requires 1 <= m <= Hits(ids, name)
    ensures k < |ids| && ids[k].variable == StateVariable(name) && Hits(ids[..k + 1], name) == m
  {
    var init := ids[..|ids| - 1];
    if m <= Hits(init, name) {
      k := NthHit(init, name, m);
      assert ids[..k + 1] == init[..k + 1];
    } else {
      k := |ids| - 1;
      assert ids[..k + 1] == ids;
    }
  }

  /** The id handed out by it: every value the state variable of a request counter has had is an id of that counter. */
  lemma {:induction false} RequestReached(counters: seq<string>, s: State, counter: string, m: nat) returns (k: nat)
    requires Consistent(counters, s) && IsRequestCounter(counter) && 1 <= m <= Hits(s.ids, counter)
    ensures k < |s.ids| && s.ids[k] == Id(counter, StateVariable(counter), InitialValue(counter) + m)
  {
    hide InitialValue, Hits, Collapse, IsRequestCounter;
    k := NthHit(s.ids, counter, m);
    assert IdIsRight(counters, s.ids, k);
    RequestHasNoDollar(counter);
    CollapseOnto(s.ids[k].counter, counter);
  }

  lemma {:induction false} EqualIdsAreNotSound(ids: seq<Id>, i: nat, j: nat)
    requires i < |ids| && j < |ids| && ids[i] != ids[j] && ids[i].value == ids[j].value
    requires IsRequestCounter(ids[i].counter) && IsRequestCounter(ids[j].counter)
    ensures !IdsAreSound(ids)
  {
    hide IsRequestCounter;
    assert i < j || j < i;
  }

  lemma {:induction false} ShortRunIsInRange(fs: seq<MockFunction>, counters: seq<string>, s: State)
    requires RunsWell(fs, counters, s) && |fs| <= 0x1_0000
    ensures InRange(s.ids) && |s.ids| < SHIFTED
  {
  }

  lemma {:induction false} UnsoundRun(mocks: seq<MockFunction>, counters: seq<string>, fs: seq<MockFunction>)
    requires (forall f :: f in fs ==> f in mocks) && InRange(Run(counters, ZeroCalls(fs)).ids)
    requires !IdsAreSound(Run(counters, ZeroCalls(fs)).ids)
    ensures !ReadsAlwaysSound(mocks, counters)
  {
    hide IdsAreSound, InRange;
    assert CallsOf(mocks, ZeroCalls(fs));
  }

  // Two counters of one request type give the same first id.

  lemma {:induction false} FirstId(
    fs: seq<MockFunction>, counters: seq<string>, s: State, at: nat, counter: string)
    returns (k: nat)
    requires RunsWell(fs, counters, s) && at < |s.ids| && IsRequestCounter(counter)
    requires s.ids[at].variable == StateVariable(counter)
    ensures k < |s.ids| && s.ids[k] == Id(counter, StateVariable(counter), InitialValue(counter) + 1)
  {
    HitsGrow(s.ids, at + 1, counter);
    assert s.ids[..at + 1] == s.ids[..at] + [s.ids[at]];
    HitsSnoc(s.ids[..at], s.ids[at], counter);
    k := RequestReached(counters, s, counter, 1);
  }

  /** A run that calls `f` reads every counter of a request type that `f` uses from its state variable. */
  lemma {:induction false} UsedIsRead(
    fs: seq<MockFunction>, counters: seq<string>, s: State, f: MockFunction, counter: string)
    returns (at: nat)
    requires RunsWell(fs, counters, s) && f in fs && RequestsKeepTheirNames(f)
    requires counter in CountersUsed(f) && IsRequestCounter(counter)
    ensures at < |s.ids| && s.ids[at].variable == StateVariable(counter)
  {
    hide Consistent, Rooted, CountersUsed, PrintedIncrements, IsRequestCounter, RequestsKeepTheirNames, Incremented,
      PrintedRun;
    var k :| 0 <= k < |CountersUsed(f)| && CountersUsed(f)[k] == counter;
    UsedLength(f, counters);
    at := PositionInRun(fs, counters, f, k);
    OwnVariable(f, counters, k);
  }

  lemma {:induction false} PositionInRun(fs: seq<MockFunction>, counters: seq<string>, f: MockFunction, k: nat)
    returns (at: nat)
    requires f in fs && k < |CountersUsed(f)|
    ensures k < |PrintedIncrements(f, counters)|
    ensures at < |Incremented(fs)| == |PrintedRun(fs, counters)|
    ensures Incremented(fs)[at] == CountersUsed(f)[k]
    ensures PrintedRun(fs, counters)[at] == PrintedIncrements(f, counters)[k]
  {
    hide CountersUsed, PrintedIncrements;
    var init, last := fs[..|fs| - 1], fs[|fs| - 1];
    UsedLength(last, counters);
    RunLength(init, counters);
    if f == last {
      at := |Incremented(init)| + k;
    } else {
      assert f in init;
      at := PositionInRun(init, counters, f, k);
    }
  }

  lemma {:induction false} RunLength(fs: seq<MockFunction>, counters: seq<string>)
    ensures |Incremented(fs)| == |PrintedRun(fs, counters)|
  {
    hide CountersUsed, PrintedIncrements;
    if fs != [] {
      RunLength(fs[..|fs| - 1], counters);
      UsedLength(fs[|fs| - 1], counters);
    }
  }

  lemma {:induction false} AliasIsUnsound(
    mocks: seq<MockFunction>, counters: seq<string>, f: MockFunction, g: MockFunction, c: string, d: string)
    requires forall e :: e in mocks ==> Compiles(e, counters) && IsShort(e) && RequestsKeepTheirNames(e)
    requires f in mocks && g in mocks && c in CountersUsed(f) && d in CountersUsed(g)
    requires SameRequest(c, d) && c != d
    ensures !ReadsAlwaysSound(mocks, counters)
  {
    hide Compiles, IsShort, RequestsKeepTheirNames, CountersUsed, RunsWell, IdsAreSound, InRange, IsRequestCounter,
      CleanName, ReadsAlwaysSound, Run;
    var fs := [f, g];
    var s := Run(counters, ZeroCalls(fs));
    ZeroRunGoesWell(fs, counters);
    ShortRunIsInRange(fs, counters, s);
    var i := UsedIsRead(fs, counters, s, f, c);
    var j := UsedIsRead(fs, counters, s, g, d);
    i := FirstId(fs, counters, s, i, c);
    j := FirstId(fs, counters, s, j, d);
    TypesAreDistinct(c, d);
    EqualIdsAreNotSound(s.ids, i, j);
    UnsoundRun(mocks, counters, fs);
  }

  // An id read from a local is small, or an id that a state variable gives out sooner or later.

  lemma {:induction false} HitsConcat(a: seq<Id>, b: seq<Id>, name: string)
    ensures Hits(a + b, name) == Hits(a, name) + Hits(b, name)
  {
    if b == [] {
      assert a + b == a;
    } else {
      HitsConcat(a, b[..|b| - 1], name);
      assert (a + b)[..|a + b| - 1] == a + b[..|b| - 1];
    }
  }

  lemma {:induction false} SameVariablesSameHits(a: seq<Id>, b: seq<Id>, name: string)
    requires |a| == |b| && forall k :: 0 <= k < |a| ==> a[k].variable == b[k].variable
    ensures Hits(a, name) == Hits(b, name)
  {
    if a != [] {
      SameVariablesSameHits(a[..|a| - 1], b[..|b| - 1], name);
    }
  }

  function Repeated(f: MockFunction, n: nat): (fs: seq<MockFunction>)
    ensures |fs| == n && forall i :: 0 <= i < n ==> fs[i] == f
  {
    seq(n, i => f)
  }

  /** Calling a function again increments the same state variables again. */
  lemma {:induction false} HitsEveryTime(f: MockFunction, counters: seq<string>, n: nat, name: string)
    requires Compiles(f, counters) && IsShort(f) && 1 <= n <= 0x1_0000
    requires Hits(Run(counters, ZeroCalls(Repeated(f, 1))).ids, name) > 0
    ensures Hits(Run(counters, ZeroCalls(Repeated(f, n))).ids, name) >= n
    ensures Run(counters, ZeroCalls(Repeated(f, 1))).ids <= Run(counters, ZeroCalls(Repeated(f, n))).ids
  {
    hide Compiles, CountersUsed, PrintedIncrements, InitialValue, ExecuteFirst, Consistent, Rooted, ReadFrom;
    if n > 1 {
      HitsEveryTime(f, counters, n - 1, name);
      var init, c := Repeated(f, n - 1), MockCall(f, map[]);
      assert Repeated(f, n)[..n - 1] == init;
      assert ZeroCalls(Repeated(f, n))[..n - 1] == ZeroCalls(init);
      ZeroRunGoesWell(init, counters);
      var s, t := Run(counters, ZeroCalls(init)), Run(counters, ZeroCalls(Repeated(f, n)));
      OneCallHits(f, counters, s, name);
      assert t == CallMock(s, c);
    }
  }

  lemma {:induction false} OneCallHits(f: MockFunction, counters: seq<string>, s: State, name: string)
    requires Compiles(f, counters) && IsShort(f)
    requires Consistent(counters, s) && Rooted(s) && |s.ids| + |f.declarations| < SHIFTED
    requires Hits(Run(counters, ZeroCalls(Repeated(f, 1))).ids, name) > 0
    ensures s.ids <= CallMock(s, MockCall(f, map[])).ids
    ensures Hits(CallMock(s, MockCall(f, map[])).ids, name) >= Hits(s.ids, name) + 1
  {
    hide Compiles, CountersUsed, PrintedIncrements, InitialValue, ExecuteFirst, Hits, Incremented, PrintedRun, Run,
      CallMock, Consistent, Rooted;
    var c, once := MockCall(f, map[]), Repeated(f, 1);
    var t, first := CallMock(s, c), Run(counters, ZeroCalls(once));
    ZeroCallReads(counters, s, f);
    ZeroRunGoesWell(once, counters);
    RunOfOne(f, counters);
    SameVariablesSameHits(t.ids[|s.ids|..], first.ids, name);
    assert t.ids == s.ids + t.ids[|s.ids|..];
    HitsConcat(s.ids, t.ids[|s.ids|..], name);
  }

  lemma {:induction false} RunOfOne(f: MockFunction, counters: seq<string>)
    ensures Incremented(Repeated(f, 1)) == CountersUsed(f)
    ensures PrintedRun(Repeated(f, 1), counters) == PrintedIncrements(f, counters)
  {
    hide *;
    assert Repeated(f, 1) == [] + [f];
    RunOfOneMore([], f, counters);
    NoRun(counters);
    assert [] + CountersUsed(f) == CountersUsed(f);
    assert [] + PrintedIncrements(f, counters) == PrintedIncrements(f, counters);
  }

  lemma {:induction false} NoRun(counters: seq<string>)
    ensures Incremented([]) == [] && PrintedRun([], counters) == []
  {
  }

  /** The id that one call of a function reads from a local in place of a counter of a request type. */
  lemma {:induction false} LocalRead(f: MockFunction, counters: seq<string>, i: nat) returns (k: nat)
    requires Compiles(f, counters) && IsShort(f)
    requires i < |f.declarations| && IsRequest(f.declarations[i].form) && !KeepsItsName(f, i)
    ensures
      var ids := Run(counters, ZeroCalls(Repeated(f, 1))).ids;
      k < |ids| && ids[k].counter == f.declarations[i].form.counter && ids[k].variable == Local
  {
    hide Compiles, IsShort, IsRequestCounter, Collapse, UsedIn, IncrementsBefore, Consistent, Rooted, Run;
    var counter := f.declarations[i].form.counter;
    RequestHasNoDollar(counter);
    CollapseOnto(counter, counter);
    CollapseKeepsIff(counter);
    if counter !in f.parameterNames {
      var j :| 0 <= j < i && DeclaredText(f.declarations[j].name) == counter;
      assert DeclaredTexts(f)[..i][j] == counter;
    }
    assert Refers(f, counters, i, counter) == Local;
    assert f.declarations[..|f.declarations|] == f.declarations;
    k := IncrementOfDeclaration(f, counters, |f.declarations|, i, counter);
    ZeroRunGoesWell(Repeated(f, 1), counters);
    RunOfOne(f, counters);
  }

  lemma {:induction false} LocalIsUnsound(mocks: seq<MockFunction>, counters: seq<string>, f: MockFunction, i: nat)
    requires f in mocks && Compiles(f, counters) && IsShort(f)
    requires i < |f.declarations| && IsRequest(f.declarations[i].form) && !KeepsItsName(f, i)
    ensures !ReadsAlwaysSound(mocks, counters)
  {
    hide Compiles, IsShort, Consistent, IdsAreSound, InRange, IsRequestCounter, KeepsItsName, ReadsAlwaysSound, Run,
      Hits, InitialValue;
    var k := LocalRead(f, counters, i);
    var once, counter := Repeated(f, 1), f.declarations[i].form.counter;
    var s := Run(counters, ZeroCalls(once));
    ZeroRunGoesWell(once, counters);
    ShortRunIsInRange(once, counters, s);
    var v := s.ids[k].value;
    assert Derived(s.ids, v);
    if v <= |s.ids| {
      SmallIdIsNotSound(s.ids, k);
      UnsoundRun(mocks, counters, once);
    } else {
      var name :| Hits(s.ids, name) > 0 && IsRequestCounter(name)
                  && InitialValue(name) < v <= InitialValue(name) + |s.ids|;
      var n := v - InitialValue(name);
      var t := Run(counters, ZeroCalls(Repeated(f, n)));
      HitsEveryTime(f, counters, n, name);
      ZeroRunGoesWell(Repeated(f, n), counters);
      ShortRunIsInRange(Repeated(f, n), counters, t);
      var j := RequestReached(counters, t, name, n);
      assert t.ids[k] == s.ids[k];
      EqualIdsAreNotSound(t.ids, j, k);
      UnsoundRun(mocks, counters, Repeated(f, n));
    }
  }

  lemma {:induction false} SmallIdIsNotSound(ids: seq<Id>, k: nat)
    requires k < |ids| && IsRequestCounter(ids[k].counter) && ids[k].value < SHIFTED
    ensures !IdsAreSound(ids)
  {
    hide IsRequestCounter;
  }

  // ---------------------------------------------------------------------------------------------
  // Exactly when
  // ---------------------------------------------------------------------------------------------

  lemma {:induction false} ReadsAreSoundIff(mocks: seq<MockFunction>, counters: seq<string>)
    requires forall f :: f in mocks ==> Compiles(f, counters) && IsShort(f)
    ensures ReadsAlwaysSound(mocks, counters) <==>
      NoAlias(mocks) && forall f :: f in mocks ==> RequestsKeepTheirNames(f)
  {
    hide Compiles, IsShort, ReadsAlwaysSound, KeepsItsName, SameRequest, CountersUsed, IsRequest;
    if f :| f in mocks && !RequestsKeepTheirNames(f) {
      var i :| 0 <= i < |f.declarations| && IsRequest(f.declarations[i].form) && !KeepsItsName(f, i);
      LocalIsUnsound(mocks, counters, f, i);
    } else if !NoAlias(mocks) {
      var c, d :| IsUsed(mocks, c) && IsUsed(mocks, d) && SameRequest(c, d) && c != d;
      var f :| f in mocks && c in CountersUsed(f);
      var g :| g in mocks && d in CountersUsed(g);
      AliasIsUnsound(mocks, counters, f, g, c, d);
    } else {
      SoundIfOwn(mocks, counters);
    }
  }
}
