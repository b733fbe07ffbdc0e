/**
 The ids the mock contract hands out are the ones it emits. Between the read of an id and the emit, a later
 increment may be printed under the id's own name. Exactly when are the emitted request ids sound: the values
 their counters gave out, distinct, and of their types?
 */
module EmittedIds {
  import opened Lists
  import opened Wrappers
  import opened EmitScan
  import opened MockFunctions
  import opened MockScoping
  import opened MockContract
  import opened MockCounters
  import opened RequestIds
  import opened MockRuns

  predicate IsRequestId(s: State, x: EmittedId) {
    x.id < |s.ids| && IsRequestCounter(s.ids[x.id].counter)
  }

  /** Every emitted request id is the value that was read from its counter. */
  ghost predicate EmittedAsRead(s: State) {
    forall x :: x in s.emitted && IsRequestId(s, x) ==> x.value == s.ids[x.id].value
  }

  /**
   Every emitted request id is the value that was read from its counter, has its type, and differs from every
   other. An id that several events carry is one id.
   */
  ghost predicate EmittedAreSound(s: State) {
    && EmittedAsRead(s)
    && (forall x :: x in s.emitted && IsRequestId(s, x) ==> x.value / SHIFTED == RequestType(s.ids[x.id].counter))
    && (forall x, y :: x in s.emitted && y in s.emitted && IsRequestId(s, x) && IsRequestId(s, y) && x.id != y.id ==>
          x.value != y.value)
  }

  /** In every run of these functions, with any arguments, in any order and any number, all emitted ids are sound. */
  ghost predicate AlwaysSound(mocks: seq<MockFunction>, counters: seq<string>) {
    forall calls :: CallsOf(mocks, calls) && InRange(Run(counters, calls).ids) ==> EmittedAreSound(Run(counters, calls))
  }

  // ---------------------------------------------------------------------------------------------
  // Every id that is read is emitted
  // ---------------------------------------------------------------------------------------------

  lemma {:induction false} IdIndexOf(ds: seq<Declaration>, i: nat)
    requires i < |ds| && ds[i].form.FromCounter?
    requires forall j :: i < j < |ds| ==> ds[j].name != ds[i].name
    ensures IdIndex(ds, ds[i].name) == Some(|UsedIn(ds[..i])|)
  {
    var init := ds[..|ds| - 1];
    if i < |init| {
      IdIndexOf(init, i);
      assert init[..i] == ds[..i];
    }
  }

  lemma {:induction false} IndexIsDeclared(ds: seq<Declaration>, arg: Option<string>) returns (i: nat)
    requires IdIndex(ds, arg).Some?
    ensures i < |ds| && ds[i].form.FromCounter? && ds[i].name == arg
    ensures IdIndex(ds, arg) == Some(|UsedIn(ds[..i])|)
  {
    var init, last := ds[..|ds| - 1], ds[|ds| - 1];
    if last.name == arg && last.form.FromCounter? {
      i := |ds| - 1;
    } else {
      i := IndexIsDeclared(init, arg);
      assert init[..i] == ds[..i];
    }
  }

  ghost predicate IsEmitOf(x: EmittedId, t: State, ds: seq<Declaration>, first: nat, arg: Option<string>) {
    match IdIndex(ds, arg)
    case Some(k) => x == EmittedId(first + k, ArgumentValue(t, arg))
    case None => false
  }

  lemma {:induction false} EmittedIff(
    t: State, ds: seq<Declaration>, first: nat, args: seq<Option<string>>, x: EmittedId)
    ensures x in EmitIds(t, ds, first, args) <==> exists i :: 0 <= i < |args| && IsEmitOf(x, t, ds, first, args[i])
  {
    hide IdIndex, ArgumentValue;
    if args != [] {
      var init, last := args[..|args| - 1], args[|args| - 1];
      EmittedIff(t, ds, first, init, x);
      assert x in EmitIds(t, ds, first, args) <==>
        x in EmitIds(t, ds, first, init) || IsEmitOf(x, t, ds, first, last);
      if i :| 0 <= i < |init| && IsEmitOf(x, t, ds, first, init[i]) {
        assert args[i] == init[i];
      }
      if IsEmitOf(x, t, ds, first, last) {
        assert args[|args| - 1] == last;
      }
      if i :| 0 <= i < |args| && IsEmitOf(x, t, ds, first, args[i]) {
        if i < |init| {
          assert init[i] == args[i];
        }
      }
    }
  }

  lemma {:induction false} ArgumentsIff(emits: seq<Emit>, arg: Option<string>)
    ensures arg in AllArguments(emits) <==> exists e :: 0 <= e < |emits| && arg in emits[e].args
  {
    if emits != [] {
      var init, last := emits[..|emits| - 1], emits[|emits| - 1];
      ArgumentsIff(init, arg);
      if e :| 0 <= e < |init| && arg in init[e].args {
        assert emits[e] == init[e];
      }
      if arg in last.args {
        assert emits[|emits| - 1] == last;
      }
      if e :| 0 <= e < |emits| && arg in emits[e].args {
        if e < |init| {
          assert init[e] == emits[e];
        }
      }
    }
  }

  /** What a call emits belongs to a declaration, and every declaration from a counter is emitted. */
  lemma {:induction false} EmittedInCall(t: State, f: MockFunction, first: nat, x: EmittedId) returns (i: nat)
    requires x in EmitIds(t, f.declarations, first, AllArguments(f.emits))
    ensures i < |f.declarations| && f.declarations[i].form.FromCounter?
    ensures x == EmittedId(first + |UsedIn(f.declarations[..i])|, ArgumentValue(t, f.declarations[i].name))
  {
    hide IdIndex, ArgumentValue;
    EmittedIff(t, f.declarations, first, AllArguments(f.emits), x);
    var a :| 0 <= a < |AllArguments(f.emits)| && IsEmitOf(x, t, f.declarations, first, AllArguments(f.emits)[a]);
    i := IndexIsDeclared(f.declarations, AllArguments(f.emits)[a]);
  }

  lemma {:induction false} DeclaredIsEmitted(t: State, f: MockFunction, first: nat, i: nat)
    requires DeclaresArguments(f) && i < |f.declarations| && f.declarations[i].form.FromCounter?
    ensures EmittedId(first + |UsedIn(f.declarations[..i])|, ArgumentValue(t, f.declarations[i].name))
      in EmitIds(t, f.declarations, first, AllArguments(f.emits))
  {
    hide IdIndex, ArgumentValue;
    var ds, arg := f.declarations, f.declarations[i].name;
    var x := EmittedId(first + |UsedIn(ds[..i])|, ArgumentValue(t, arg));
    IdIndexOf(ds, i);
    assert ds[i] in ds;
    ArgumentsIff(f.emits, arg);
    var a :| 0 <= a < |AllArguments(f.emits)| && AllArguments(f.emits)[a] == arg;
    assert IsEmitOf(x, t, ds, first, AllArguments(f.emits)[a]);
    EmittedIff(t, ds, first, AllArguments(f.emits), x);
  }

  predicate IsEmitted(emitted: seq<EmittedId>, k: nat) {
    exists x :: x in emitted && x.id == k
  }

  /** The emitted ids are among the ids that were read, and are all of them. */
  ghost predicate EmitsAllIds(s: State) {
    && (forall x :: x in s.emitted ==> x.id < |s.ids|)
    && (forall k :: 0 <= k < |s.ids| ==> IsEmitted(s.emitted, k))
  }

  /** What a call that does not revert adds. */
  lemma {:induction false} CallAdds(counters: seq<string>, s: State, c: MockCall)
    requires s.values.Keys == Members(counters)
    requires ExecuteFirst(Enter(s, c), c.f, |c.f.declarations|).Some?
    ensures
      var t := ExecuteFirst(Enter(s, c), c.f, |c.f.declarations|).value;
      && CallMock(s, c).ids == t.ids && s.ids <= t.ids && |t.ids| == |s.ids| + |CountersUsed(c.f)|
      && t.emitted == s.emitted
      && CallMock(s, c).emitted ==
           s.emitted + EmitIds(t, c.f.declarations, |s.ids|, AllArguments(c.f.emits))
  {
    hide ExecuteFirst, Enter, UsedIn, IncrementsBefore, EmitIds, AllArguments;
    FirstHaveExecuted(counters, s, c, |c.f.declarations|);
    assert c.f.declarations[..|c.f.declarations|] == c.f.declarations;
    ExecutionEmitsNothing(Enter(s, c), c.f, |c.f.declarations|);
    EnterEmitsNothing(s, c);
  }

  lemma {:induction false} EnterEmitsNothing(s: State, c: MockCall)
    ensures Enter(s, c).emitted == s.emitted && Enter(s, c).ids == s.ids && Enter(s, c).values == s.values
  {
  }

  lemma {:induction false} ExecutionEmitsNothing(s: State, f: MockFunction, n: nat)
    requires n <= |f.declarations| && ExecuteFirst(s, f, n).Some?
    ensures ExecuteFirst(s, f, n).value.emitted == s.emitted
  {
    hide Collapse, DeclaredText;
    if n > 0 {
      ExecutionEmitsNothing(s, f, n - 1);
    }
  }

  lemma {:induction false} UsedPrefix(ds: seq<Declaration>, i: nat)
    requires i < |ds| && ds[i].form.FromCounter?
    ensures |UsedIn(ds[..i])| < |UsedIn(ds)|
    ensures UsedIn(ds)[|UsedIn(ds[..i])|] == ds[i].form.counter
  {
    var init := ds[..|ds| - 1];
    if i < |init| {
      UsedPrefix(init, i);
      assert init[..i] == ds[..i];
    }
  }

  lemma {:induction false} DeclarationOfUsed(ds: seq<Declaration>, k: nat) returns (i: nat)
    requires k < |UsedIn(ds)|
    ensures i < |ds| && ds[i].form.FromCounter? && |UsedIn(ds[..i])| == k
  {
    var init := ds[..|ds| - 1];
    if k < |UsedIn(init)| {
      i := DeclarationOfUsed(init, k);
      assert init[..i] == ds[..i];
    } else {
      i := |ds| - 1;
    }
  }

  lemma {:induction false} CallEmitsAllIds(counters: seq<string>, s: State, c: MockCall)
    requires s.values.Keys == Members(counters) && EmitsAllIds(s) && DeclaresArguments(c.f)
    ensures EmitsAllIds(CallMock(s, c))
  {
    hide DeclaresArguments, ArgumentValue, EmitIds, UsedIn, AllArguments, ExecuteFirst, Enter;
    var ds, u := c.f.declarations, CallMock(s, c);
    if ExecuteFirst(Enter(s, c), c.f, |ds|).Some? {
      var t := ExecuteFirst(Enter(s, c), c.f, |ds|).value;
      CallAdds(counters, s, c);
      var news := EmitIds(t, ds, |s.ids|, AllArguments(c.f.emits));
      forall x | x in u.emitted
        ensures x.id < |u.ids|
      {
        if x in news {
          var i := EmittedInCall(t, c.f, |s.ids|, x);
          UsedPrefix(ds, i);
        }
      }
      forall k | 0 <= k < |u.ids|
        ensures IsEmitted(u.emitted, k)
      {
        if k < |s.ids| {
          assert IsEmitted(s.emitted, k);
          var x :| x in s.emitted && x.id == k;
          assert x in u.emitted;
        } else {
          var i := DeclarationOfUsed(ds, k - |s.ids|);
          DeclaredIsEmitted(t, c.f, |s.ids|, i);
          assert EmittedId(k, ArgumentValue(t, ds[i].name)) in u.emitted;
        }
      }
    } else {
      CallReverts(s, c);
    }
  }

  lemma {:induction false} CallReverts(s: State, c: MockCall)
    requires ExecuteFirst(Enter(s, c), c.f, |c.f.declarations|) == None
    ensures CallMock(s, c) == s
  {
  }

  lemma {:induction false} RunEmitsAllIds(counters: seq<string>, calls: seq<MockCall>)
    requires forall c :: c in calls ==> DeclaresArguments(c.f)
    ensures EmitsAllIds(Run(counters, calls))
  {
    hide DeclaresArguments, CallMock, InitialValue;
    if calls != [] {
      var init, c := calls[..|calls| - 1], calls[|calls| - 1];
      assert c in calls && forall d :: d in init ==> d in calls;
      RunEmitsAllIds(counters, init);
      RunIsConsistent(counters, init);
      CallEmitsAllIds(counters, Run(counters, init), c);
    }
  }

  /** So the emitted ids are sound exactly when the ids are read soundly and emitted as they were read. */
  lemma {:induction false} SoundIffReadSoundly(s: State)
    requires EmitsAllIds(s)
    ensures EmittedAreSound(s) <==> EmittedAsRead(s) && IdsAreSound(s.ids)
  {
    hide IsRequestCounter;
    if EmittedAreSound(s) {
      forall i | 0 <= i < |s.ids| && IsRequestCounter(s.ids[i].counter)
        ensures s.ids[i].value / SHIFTED == RequestType(s.ids[i].counter)
      {
        assert IsEmitted(s.emitted, i);
        var x :| x in s.emitted && x.id == i;
      }
      forall i, j | 0 <= i < j < |s.ids| && IsRequestCounter(s.ids[i].counter) && IsRequestCounter(s.ids[j].counter)
        ensures s.ids[i].value != s.ids[j].value
      {
        assert IsEmitted(s.emitted, i) && IsEmitted(s.emitted, j);
        var x :| x in s.emitted && x.id == i;
        var y :| y in s.emitted && y.id == j;
      }
    }
    if EmittedAsRead(s) && IdsAreSound(s.ids) {
      forall x, y | x in s.emitted && y in s.emitted && IsRequestId(s, x) && IsRequestId(s, y) && x.id != y.id
        ensures x.value != y.value
      {
        assert x.id < y.id || y.id < x.id;
      }
    }
  }

  // ---------------------------------------------------------------------------------------------
  // The value of a declared variable at the emit
  // ---------------------------------------------------------------------------------------------

  /** Whether the increment of a declaration is printed under this name. */
  predicate IncrementsName(d: Declaration, name: string) {
    d.form.FromCounter? && Collapse(d.form.counter) == name
  }

  /** How many declarations after the i-th increment its variable. */
  function LaterIncrements(f: MockFunction, i: nat, n: nat): nat
    requires i < n <= |f.declarations|
  {
    if n == i + 1 then 0
    else
      LaterIncrements(f, i, n - 1)
      + if IncrementsName(f.declarations[n - 1], DeclaredText(f.declarations[i].name)) then 1 else 0
  }

  lemma {:induction false} ExecuteLocal(t: State, d: Declaration, name: string)
    requires Execute(t, d).Some? && name in t.locals && name != DeclaredText(d.name)
    ensures name in Execute(t, d).value.locals
    ensures Execute(t, d).value.locals[name] == t.locals[name] + if IncrementsName(d, name) then 1 else 0
    ensures t.ids <= Execute(t, d).value.ids
  {
    hide Collapse, DeclaredText;
  }

  lemma {:induction false} ExecuteOwn(t: State, d: Declaration)
    requires Execute(t, d).Some? && d.form.FromCounter?
    ensures
      var u := Execute(t, d).value;
      && |u.ids| == |t.ids| + 1 && DeclaredText(d.name) in u.locals
      && u.locals[DeclaredText(d.name)] == u.ids[|t.ids|].value
  {
    hide Collapse, DeclaredText;
  }

  /** A declared variable is what was read for it, plus one for every later increment printed under its name. */
  lemma {:induction false} VariableAfter(counters: seq<string>, s: State, c: MockCall, i: nat, n: nat)
    requires s.values.Keys == Members(counters) && NoDuplicates(DeclaredTexts(c.f))
    requires i < n <= |c.f.declarations| && c.f.declarations[i].form.FromCounter?
    requires ExecuteFirst(Enter(s, c), c.f, n).Some?
    ensures
      var t, name := ExecuteFirst(Enter(s, c), c.f, n).value, DeclaredText(c.f.declarations[i].name);
      var k := |s.ids| + |UsedIn(c.f.declarations[..i])|;
      && k < |t.ids| && name in t.locals
      && t.locals[name] == t.ids[k].value + LaterIncrements(c.f, i, n)
  {
    hide Execute, Enter, UsedIn, IncrementsName, Collapse, DeclaredText;
    var ds := c.f.declarations;
    var t := ExecuteFirst(Enter(s, c), c.f, n - 1).value;
    if n == i + 1 {
      FirstHaveExecuted(counters, s, c, i);
      ExecuteOwn(t, ds[i]);
    } else {
      VariableAfter(counters, s, c, i, n - 1);
      assert DeclaredTexts(c.f)[i] != DeclaredTexts(c.f)[n - 1];
      ExecuteLocal(t, ds[n - 1], DeclaredText(ds[i].name));
    }
  }

  // ---------------------------------------------------------------------------------------------
  // Ids that stay as they were read
  // ---------------------------------------------------------------------------------------------

  /** The id is declared under the name it is emitted under, and no later increment is printed under it. */
  predicate StaysAsRead(f: MockFunction, i: nat)
    requires i < |f.declarations|
  {
    && Plain(f.declarations[i].name)
    && forall j :: i < j < |f.declarations| ==> !IncrementsName(f.declarations[j], DeclaredText(f.declarations[i].name))
  }

  predicate RequestsStayAsRead(f: MockFunction) {
    forall i :: 0 <= i < |f.declarations| && IsRequest(f.declarations[i].form) ==> StaysAsRead(f, i)
  }

  lemma {:induction false} LaterIncrementsIff(f: MockFunction, i: nat, n: nat)
    requires i < n <= |f.declarations|
    ensures LaterIncrements(f, i, n) == 0 <==>
      forall j :: i < j < n ==> !IncrementsName(f.declarations[j], DeclaredText(f.declarations[i].name))
  {
    hide IncrementsName, DeclaredText;
    if n > i + 1 {
      LaterIncrementsIff(f, i, n - 1);
    }
  }

  lemma PlainIsEmittedAsDeclared(name: Option<string>)
    requires Plain(name)
    ensures DeclaredText(name) == ArgumentText(name) == name.value
  {
    CollapseKeepsIff(name.value);
  }

  /** What the emit carries for an id under a plain name. */
  lemma {:induction false} PlainIsEmitted(counters: seq<string>, s: State, c: MockCall, i: nat)
    requires s.values.Keys == Members(counters) && NoDuplicates(DeclaredTexts(c.f))
    requires i < |c.f.declarations| && c.f.declarations[i].form.FromCounter? && Plain(c.f.declarations[i].name)
    requires ExecuteFirst(Enter(s, c), c.f, |c.f.declarations|).Some?
    ensures
      var t := ExecuteFirst(Enter(s, c), c.f, |c.f.declarations|).value;
      var k := |s.ids| + |UsedIn(c.f.declarations[..i])|;
      && k < |t.ids|
      && ArgumentValue(t, c.f.declarations[i].name) ==
           t.ids[k].value + LaterIncrements(c.f, i, |c.f.declarations|)
  {
    hide ExecuteFirst, Enter, UsedIn, Plain, Collapse;
    PlainIsEmittedAsDeclared(c.f.declarations[i].name);
    VariableAfter(counters, s, c, i, |c.f.declarations|);
  }

  lemma {:induction false} CallEmitsAsRead(counters: seq<string>, s: State, c: MockCall)
    requires Consistent(counters, s) && EmitsAllIds(s) && EmittedAsRead(s)
    requires Compiles(c.f, counters) && RequestsStayAsRead(c.f)
    ensures EmittedAsRead(CallMock(s, c))
  {
    hide ArgumentValue, EmitIds, UsedIn, AllArguments, ExecuteFirst, Enter, IsRequestCounter, IdIsRight, Hits,
      CallMock, Plain, InitialValue;
    var ds, u := c.f.declarations, CallMock(s, c);
    if ExecuteFirst(Enter(s, c), c.f, |ds|).Some? {
      var t := ExecuteFirst(Enter(s, c), c.f, |ds|).value;
      CallAdds(counters, s, c);
      forall x | x in u.emitted && IsRequestId(u, x)
        ensures x.value == u.ids[x.id].value
      {
        if x in s.emitted {
          assert u.ids[x.id] == s.ids[x.id];
        } else {
          var i := EmittedInCall(t, c.f, |s.ids|, x);
          IdOfDeclaration(counters, s, c, i);
          assert StaysAsRead(c.f, i);
          LaterIncrementsIff(c.f, i, |ds|);
          PlainIsEmitted(counters, s, c, i);
        }
      }
    } else {
      CallReverts(s, c);
    }
  }

  /** The counter of the id that a declaration reads. */
  lemma {:induction false} IdOfDeclaration(counters: seq<string>, s: State, c: MockCall, i: nat)
    requires s.values.Keys == Members(counters)
    requires i < |c.f.declarations| && c.f.declarations[i].form.FromCounter?
    requires ExecuteFirst(Enter(s, c), c.f, |c.f.declarations|).Some?
    ensures
      var t := ExecuteFirst(Enter(s, c), c.f, |c.f.declarations|).value;
      var k := |s.ids| + |UsedIn(c.f.declarations[..i])|;
      k < |t.ids| && t.ids[k].counter == c.f.declarations[i].form.counter
  {
    hide ExecuteFirst, Enter, UsedIn, IncrementsBefore;
    var n := |c.f.declarations|;
    FirstHaveExecuted(counters, s, c, n);
    assert c.f.declarations[..n] == c.f.declarations;
    UsedPrefix(c.f.declarations, i);
    var t := ExecuteFirst(Enter(s, c), c.f, n).value;
    assert t.ids[|s.ids|..][|UsedIn(c.f.declarations[..i])|] == t.ids[|s.ids| + |UsedIn(c.f.declarations[..i])|];
  }

  lemma {:induction false} RunEmitsAsRead(counters: seq<string>, calls: seq<MockCall>)
    requires forall c :: c in calls ==> Compiles(c.f, counters) && DeclaresArguments(c.f) && RequestsStayAsRead(c.f)
    ensures EmittedAsRead(Run(counters, calls))
  {
    hide Compiles, DeclaresArguments, RequestsStayAsRead, CallMock, InitialValue, IsRequestCounter;
    if calls != [] {
      var init, c := calls[..|calls| - 1], calls[|calls| - 1];
      assert c in calls && forall d :: d in init ==> d in calls;
      RunEmitsAsRead(counters, init);
      RunIsConsistent(counters, init);
      RunEmitsAllIds(counters, init);
      CallEmitsAsRead(counters, Run(counters, init), c);
    }
  }

  // ---------------------------------------------------------------------------------------------
  // Ids that change
  // ---------------------------------------------------------------------------------------------

  /** The first call of a function, with zero arguments. */
  function Begin(counters: seq<string>): State {
    Run(counters, [])
  }

  function First(f: MockFunction): MockCall {
    MockCall(f, map[])
  }

  lemma {:induction false} FirstCallGoesWell(f: MockFunction, counters: seq<string>, n: nat)
    requires Compiles(f, counters) && IsShort(f) && n <= |f.declarations|
    ensures Begin(counters).ids == [] && Begin(counters).emitted == []
    ensures ExecuteFirst(Enter(Begin(counters), First(f)), f, n).Some?
    ensures GoesWell(counters, Begin(counters), f, n, ExecuteFirst(Enter(Begin(counters), First(f)), f, n).value)
    ensures Run(counters, ZeroCalls([f])) == CallMock(Begin(counters), First(f))
    ensures Consistent(counters, Begin(counters))
  {
    hide Compiles, InitialValue, ExecuteFirst, CallMock, Enter, GoesWell;
    RunIsConsistent(counters, []);
    ZeroExecutionGoesWell(counters, Begin(counters), f, n);
    assert ZeroCalls([f]) == [First(f)] && [First(f)][..0] == [];
  }

  /** An id of which the first call emits another value than it read makes a run unsound. */
  lemma {:induction false} ChangedIsUnsound(mocks: seq<MockFunction>, counters: seq<string>, f: MockFunction, i: nat)
    requires f in mocks && Compiles(f, counters) && IsShort(f) && DeclaresArguments(f)
    requires i < |f.declarations| && IsRequest(f.declarations[i].form)
    requires
      var t := ExecuteFirst(Enter(Begin(counters), First(f)), f, |f.declarations|);
      var k := |UsedIn(f.declarations[..i])|;
      t.Some? && k < |t.value.ids| && ArgumentValue(t.value, f.declarations[i].name) != t.value.ids[k].value
    ensures !AlwaysSound(mocks, counters)
  {
    hide Compiles, IsShort, DeclaresArguments, Run, ExecuteFirst, Enter, UsedIn, EmitIds, AllArguments, InRange,
      CallMock, IsRequestCounter, RunsWell, Hits, ArgumentValue;
    var s, c := Begin(counters), First(f);
    var u := Run(counters, ZeroCalls([f]));
    FirstCallGoesWell(f, counters, |f.declarations|);
    CallAdds(counters, s, c);
    IdOfDeclaration(counters, s, c, i);
    var t := ExecuteFirst(Enter(s, c), f, |f.declarations|).value;
    DeclaredIsEmitted(t, f, 0, i);
    var x := EmittedId(|UsedIn(f.declarations[..i])|, ArgumentValue(t, f.declarations[i].name));
    assert x in u.emitted && IsRequestId(u, x);
    ZeroRunGoesWell([f], counters);
    ShortRunIsInRange([f], counters, u);
    assert CallsOf(mocks, ZeroCalls([f]));
  }

  lemma {:induction false} LaterIncrementIsUnsound(
    mocks: seq<MockFunction>, counters: seq<string>, f: MockFunction, i: nat)
    requires f in mocks && Compiles(f, counters) && IsShort(f) && DeclaresArguments(f)
    requires i < |f.declarations| && IsRequest(f.declarations[i].form)
    requires Plain(f.declarations[i].name) && !StaysAsRead(f, i)
    ensures !AlwaysSound(mocks, counters)
  {
    hide IsShort, DeclaresArguments, Run, ExecuteFirst, Enter, UsedIn, IsRequestCounter, Plain, IncrementsName, Refers,
      AlwaysSound, ArgumentValue;
    FirstCallGoesWell(f, counters, |f.declarations|);
    LaterIncrementsIff(f, i, |f.declarations|);
    PlainIsEmitted(counters, Begin(counters), First(f), i);
    ChangedIsUnsound(mocks, counters, f, i);
  }

  // ---------------------------------------------------------------------------------------------
  // Ids that are emitted under another name than they are declared
  // ---------------------------------------------------------------------------------------------

  // Such an emit carries another variable, or a state variable. The first of these ids is the smallest of its type
  // that ever gets into a variable which is not declared for a plain id, so what the emit carries is not this id.

  /** No number of this type up to `r`. */
  predicate Far(kind: nat, r: nat, x: nat) {
    x / SHIFTED != kind || x > r
  }

  /** The i-th declaration is the first of a request id whose name is not plain. */
  ghost predicate IsFirstUnplain(f: MockFunction, i: nat) {
    && i < |f.declarations| && IsRequest(f.declarations[i].form) && !Plain(f.declarations[i].name)
    && (forall k :: 0 <= k < i && IsRequest(f.declarations[k].form) ==> Plain(f.declarations[k].name))
  }

  ghost predicate PlainIdsStay(f: MockFunction) {
    forall k :: 0 <= k < |f.declarations| && IsRequest(f.declarations[k].form) && Plain(f.declarations[k].name) ==>
      StaysAsRead(f, k)
  }

  predicate IsPlainId(f: MockFunction, n: nat, name: string)
    requires n <= |f.declarations|
  {
    exists k :: 0 <= k < n && IsRequest(f.declarations[k].form) && Plain(f.declarations[k].name)
      && DeclaredText(f.declarations[k].name) == name
  }

  /** What a variable can hold after `n` declarations, where `r` is the id that the i-th reads. */
  ghost predicate HoldsNoEqual(f: MockFunction, i: nat, r: nat, n: nat, name: string, x: nat)
    requires i < |f.declarations| && IsRequest(f.declarations[i].form) && n <= |f.declarations|
  {
    || IsPlainId(f, n, name)
    || Far(RequestType(f.declarations[i].form.counter), r, x)
    || (i < n && name == DeclaredText(f.declarations[i].name) && x >= r)
  }

  ghost predicate NoEqual(f: MockFunction, i: nat, r: nat, n: nat, t: State)
    requires i < |f.declarations| && IsRequest(f.declarations[i].form) && n <= |f.declarations|
  {
    forall name :: name in t.locals ==>
      HoldsNoEqual(f, i, r, n, name, t.locals[name]) && t.locals[name] % SHIFTED <= |t.ids|
  }

  lemma FarGrows(kind: nat, r: nat, x: nat, n: nat)
    requires (Far(kind, r, x) || x >= r) && x % SHIFTED <= n && n + 1 < SHIFTED
    ensures Far(kind, r, x + 1) && (x + 1) % SHIFTED <= n + 1
  {
    assert x == (x / SHIFTED) * SHIFTED + x % SHIFTED;
    TypeOfId(x / SHIFTED, x % SHIFTED + 1);
  }

  /** A request counter is not hidden, so an increment of a local belongs to another counter. */
  lemma {:induction false} RequestReadsState(f: MockFunction, counters: seq<string>, s: State, n: nat, t: State)
    requires n < |f.declarations| && IsRequest(f.declarations[n].form) && RequestsKeepTheirNames(f)
    requires HasExecuted(counters, s.ids, f, n, t)
    ensures Collapse(f.declarations[n].form.counter) == f.declarations[n].form.counter
    ensures f.declarations[n].form.counter !in t.locals
  {
    hide ReadFrom, Collapse, IsRequestCounter;
    assert KeepsItsName(f, n);
    CollapseKeepsIff(f.declarations[n].form.counter);
  }

  /** A local that is not a plain id is incremented to a number that is far again, and plain ids are not. */
  lemma {:induction false} IncrementedIsFar(f: MockFunction, i: nat, r: nat, n: nat, t: State, name: string)
    requires n < |f.declarations| && i < |f.declarations| && IsRequest(f.declarations[i].form)
    requires PlainIdsStay(f) && NoEqual(f, i, r, n, t) && |t.ids| + 1 < SHIFTED
    requires name in t.locals && IncrementsName(f.declarations[n], name)
    ensures Far(RequestType(f.declarations[i].form.counter), r, t.locals[name] + 1)
    ensures (t.locals[name] + 1) % SHIFTED <= |t.ids| + 1
  {
    hide Plain, IsRequestCounter, IncrementsName, DeclaredText, Far, CleanName;
    assert HoldsNoEqual(f, i, r, n, name, t.locals[name]);
    FarGrows(RequestType(f.declarations[i].form.counter), r, t.locals[name], |t.ids|);
  }

  lemma OtherTypeIsFar(kind: nat, r: nat, counter: string, h: nat)
    requires h < SHIFTED && kind != 0
    requires IsRequestCounter(counter) ==> RequestType(counter) != kind
    ensures Far(kind, r, InitialValue(counter) + h) && (InitialValue(counter) + h) % SHIFTED == h
  {
    hide CleanName;
    if IsRequestCounter(counter) {
      TypeOfId(RequestType(counter), h);
    }
  }

  /** What one declaration from a counter reads: an id of a plain name, this id, or a number that is far. */
  ghost predicate ReadsNoEqual(f: MockFunction, i: nat, r: nat, n: nat, v: nat, m: nat)
    requires n < |f.declarations| && i < |f.declarations| && IsRequest(f.declarations[i].form)
  {
    && ((IsRequest(f.declarations[n].form) && Plain(f.declarations[n].name))
        || Far(RequestType(f.declarations[i].form.counter), r, v) || (n == i && v >= r))
    && v % SHIFTED <= m
  }

  /** A request counter reads its next value: of another type, or later than `r` if it is the same counter. */
  lemma {:induction false} RequestReadIsFar(
    mocks: seq<MockFunction>, f: MockFunction, i: nat, h: nat, n: nat, hits: nat)
    requires f in mocks && NoAlias(mocks) && IsFirstUnplain(f, i)
    requires n < |f.declarations| && IsRequest(f.declarations[n].form) && hits < SHIFTED
    requires n == i ==> hits >= h
    requires n > i && f.declarations[n].form.counter == f.declarations[i].form.counter ==> hits > h
    ensures
      var own, counter := f.declarations[i].form.counter, f.declarations[n].form.counter;
      ReadsNoEqual(f, i, InitialValue(own) + h, n, InitialValue(counter) + hits, hits)
  {
    hide CleanName, IsRequestCounter, Plain, InitialValue, Far, NoAlias;
    var own, counter := f.declarations[i].form.counter, f.declarations[n].form.counter;
    var kind, r := RequestType(own), InitialValue(own) + h;
    if RequestType(counter) != kind {
      OtherTypeIsFar(kind, r, counter, hits);
    } else {
      SameTypeSameCounter(mocks, f, n, i);
      TypeOfHits(counter, hits);
      if n > i {
        MoreIsFar(kind, r, InitialValue(counter) + hits);
      }
    }
  }

  /** Another counter reads a small number. */
  lemma OtherReadIsFar(f: MockFunction, i: nat, r: nat, n: nat, counter: string, hits: nat)
    requires n < |f.declarations| && f.declarations[n].form == FromCounter(counter) && !IsRequestCounter(counter)
    requires i < |f.declarations| && IsRequest(f.declarations[i].form) && hits < SHIFTED
    ensures ReadsNoEqual(f, i, r, n, InitialValue(Collapse(counter)) + hits, hits)
  {
    hide CleanName, IsRequestCounter, Plain, InitialValue, Far, Collapse;
    var name := Collapse(counter);
    if IsRequestCounter(name) {
      RequestHasNoDollar(name);
      CollapseOnto(counter, name);
    }
    OtherTypeIsFar(RequestType(f.declarations[i].form.counter), r, name, hits);
  }

  lemma {:induction false} StateRead(counters: seq<string>, t: State, counter: string, u: State)
    requires IncrementAndRead(t, counter) == Some(u) && Consistent(counters, u) && Collapse(counter) !in t.locals
    ensures |u.ids| == |t.ids| + 1
    ensures u.ids[|t.ids|].value == InitialValue(Collapse(counter)) + Hits(u.ids, Collapse(counter))
    ensures Hits(u.ids, Collapse(counter)) == Hits(t.ids, Collapse(counter)) + 1
  {
    hide Collapse, InitialValue, IdIsRight;
    assert Collapse(counter) in u.values && Collapse(counter) in counters;
    HitsSnoc(t.ids, u.ids[|t.ids|], Collapse(counter));
  }

  lemma {:induction false} StateReadIsFar(
    mocks: seq<MockFunction>, f: MockFunction, counters: seq<string>, s: State, i: nat, h: nat, n: nat, t: State,
    counter: string, u: State)
    requires f in mocks && NoAlias(mocks) && RequestsKeepTheirNames(f) && IsFirstUnplain(f, i)
    requires n < |f.declarations| && f.declarations[n].form == FromCounter(counter)
    requires HasExecuted(counters, s.ids, f, n, t) && |t.ids| + 1 < SHIFTED
    requires IncrementAndRead(t, counter) == Some(u) && Consistent(counters, u) && Collapse(counter) !in t.locals
    requires n == i ==> Hits(u.ids, counter) >= h
    requires n > i ==> Hits(t.ids, f.declarations[i].form.counter) >= h
    ensures ReadsNoEqual(f, i, InitialValue(f.declarations[i].form.counter) + h, n, u.ids[|t.ids|].value, |u.ids|)
  {
    hide IsRequestCounter, Plain, Collapse, HasExecuted, InitialValue, Far, Hits, Consistent, NoAlias,
      RequestsKeepTheirNames, IncrementAndRead;
    var own, name := f.declarations[i].form.counter, Collapse(counter);
    StateRead(counters, t, counter, u);
    if IsRequestCounter(counter) {
      RequestReadsState(f, counters, s, n, t);
      RequestReadIsFar(mocks, f, i, h, n, Hits(u.ids, counter));
    } else {
      OtherReadIsFar(f, i, InitialValue(own) + h, n, counter, Hits(u.ids, name));
    }
  }

  lemma MoreIsFar(kind: nat, r: nat, v: nat)
    requires v > r
    ensures Far(kind, r, v)
  {
  }

  lemma TypeOfHits(counter: string, h: nat)
    requires h < SHIFTED
    ensures (InitialValue(counter) + h) % SHIFTED == h
  {
    hide CleanName;
  }

  lemma {:induction false} SameTypeSameCounter(mocks: seq<MockFunction>, f: MockFunction, n: nat, i: nat)
    requires f in mocks && NoAlias(mocks) && n < |f.declarations| && i < |f.declarations|
    requires IsRequest(f.declarations[n].form) && IsRequest(f.declarations[i].form)
    requires RequestType(f.declarations[n].form.counter) == RequestType(f.declarations[i].form.counter)
    ensures f.declarations[n].form.counter == f.declarations[i].form.counter
  {
    hide CleanName, IsRequestCounter, UsedIn;
    TypesAreDistinct(f.declarations[n].form.counter, f.declarations[i].form.counter);
    UsedPrefix(f.declarations, n);
    UsedPrefix(f.declarations, i);
    var c, d := f.declarations[n].form.counter, f.declarations[i].form.counter;
    assert c in CountersUsed(f) && d in CountersUsed(f);
    assert IsUsed(mocks, c) && IsUsed(mocks, d) && SameRequest(c, d);
  }

  /** Everything that is needed to go on. */
  ghost predicate UnplainSetting(mocks: seq<MockFunction>, f: MockFunction, counters: seq<string>, i: nat) {
    && f in mocks && NoAlias(mocks) && RequestsKeepTheirNames(f)
    && Compiles(f, counters) && IsShort(f) && PlainIdsStay(f) && IsFirstUnplain(f, i)
  }

  lemma {:induction false} ReadIsFar(
    mocks: seq<MockFunction>, f: MockFunction, counters: seq<string>, s: State, i: nat, h: nat, n: nat, t: State,
    counter: string)
    requires UnplainSetting(mocks, f, counters, i)
    requires n < |f.declarations| && f.declarations[n].form == FromCounter(counter)
    requires GoesWell(counters, s, f, n, t) && |t.ids| + 1 < SHIFTED
    requires NoEqual(f, i, InitialValue(f.declarations[i].form.counter) + h, n, t)
    requires IncrementAndRead(t, counter).Some?
    requires n == i ==> Hits(IncrementAndRead(t, counter).value.ids, counter) >= h
    requires n > i ==> Hits(t.ids, f.declarations[i].form.counter) >= h
    ensures
      var u := IncrementAndRead(t, counter).value;
      ReadsNoEqual(f, i, InitialValue(f.declarations[i].form.counter) + h, n, u.ids[|t.ids|].value, |u.ids|)
  {
    hide CleanName, IsRequestCounter, Plain, Collapse, HasExecuted, InitialValue, Far, Hits, UsedIn, Consistent, Rooted,
      RequestsKeepTheirNames, NoAlias, PlainIdsStay, IsFirstUnplain, Compiles, NoEqual;
    var u := IncrementAndRead(t, counter).value;
    IncrementIsConsistent(counters, t, counter);
    if Collapse(counter) in t.locals {
      FirstIsDeclared(f, i);
      IncrementedIsFar(f, i, InitialValue(f.declarations[i].form.counter) + h, n, t, Collapse(counter));
    } else {
      StateReadIsFar(mocks, f, counters, s, i, h, n, t, counter, u);
    }
  }

  lemma FirstIsDeclared(f: MockFunction, i: nat)
    requires IsFirstUnplain(f, i)
    ensures i < |f.declarations| && IsRequest(f.declarations[i].form)
  {
  }

  lemma {:induction false} VariableKeepsNoEqual(
    f: MockFunction, i: nat, r: nat, n: nat, t: State, u: State, name: string)
    requires n < |f.declarations| && i < |f.declarations| && IsRequest(f.declarations[i].form)
    requires Execute(t, f.declarations[n]) == Some(u) && NoEqual(f, i, r, n, t) && |t.ids| + 1 < SHIFTED
    requires |t.ids| + (if f.declarations[n].form.FromCounter? then 1 else 0) <= |u.ids|
    requires PlainIdsStay(f) && name in t.locals && name != DeclaredText(f.declarations[n].name)
    ensures name in u.locals
    ensures HoldsNoEqual(f, i, r, n + 1, name, u.locals[name]) && u.locals[name] % SHIFTED <= |u.ids|
  {
    hide Plain, IsRequestCounter, DeclaredText, Far, CleanName, Execute, Collapse, PlainIdsStay;
    assert HoldsNoEqual(f, i, r, n, name, t.locals[name]);
    ExecuteLocal(t, f.declarations[n], name);
    if IncrementsName(f.declarations[n], name) {
      IncrementedIsFar(f, i, r, n, t, name);
    } else {
      LaterHoldsNoEqual(f, i, r, n, name, t.locals[name]);
    }
  }

  lemma LaterHoldsNoEqual(f: MockFunction, i: nat, r: nat, n: nat, name: string, x: nat)
    requires n < |f.declarations| && i < |f.declarations| && IsRequest(f.declarations[i].form)
    requires HoldsNoEqual(f, i, r, n, name, x)
    ensures HoldsNoEqual(f, i, r, n + 1, name, x)
  {
    hide Plain, IsRequestCounter, DeclaredText, Far, CleanName;
    if IsPlainId(f, n, name) {
      var k :| 0 <= k < n && IsRequest(f.declarations[k].form) && Plain(f.declarations[k].name)
               && DeclaredText(f.declarations[k].name) == name;
      assert IsPlainId(f, n + 1, name);
    }
  }

  lemma OwnKeepsNoEqual(f: MockFunction, i: nat, r: nat, n: nat, v: nat, m: nat)
    requires n < |f.declarations| && i < |f.declarations| && IsRequest(f.declarations[i].form)
    requires ReadsNoEqual(f, i, r, n, v, m) || v == 0
    ensures HoldsNoEqual(f, i, r, n + 1, DeclaredText(f.declarations[n].name), v) && v % SHIFTED <= m
  {
    hide Plain, IsRequestCounter, DeclaredText, CleanName;
    if v != 0 && IsRequest(f.declarations[n].form) && Plain(f.declarations[n].name) {
      assert IsPlainId(f, n + 1, DeclaredText(f.declarations[n].name));
    }
  }

  lemma {:induction false} StepKeepsNoEqual(f: MockFunction, i: nat, r: nat, n: nat, t: State, u: State)
    requires n < |f.declarations| && i < |f.declarations| && IsRequest(f.declarations[i].form)
    requires Execute(t, f.declarations[n]) == Some(u) && NoEqual(f, i, r, n, t) && |t.ids| + 1 < SHIFTED
    requires PlainIdsStay(f)
    requires f.declarations[n].form.FromCounter? ==>
      |u.ids| == |t.ids| + 1 && ReadsNoEqual(f, i, r, n, u.ids[|t.ids|].value, |u.ids|)
    ensures NoEqual(f, i, r, n + 1, u)
  {
    hide IsRequestCounter, CleanName, PlainIdsStay, ReadsNoEqual, HoldsNoEqual, Execute;
    var text := DeclaredText(f.declarations[n].name);
    ExecuteDeclares(t, f.declarations[n]);
    ExecuteText(t, f.declarations[n]);
    forall name | name in u.locals
      ensures HoldsNoEqual(f, i, r, n + 1, name, u.locals[name]) && u.locals[name] % SHIFTED <= |u.ids|
    {
      if name == text {
        OwnKeepsNoEqual(f, i, r, n, u.locals[name], |u.ids|);
      } else {
        VariableKeepsNoEqual(f, i, r, n, t, u, name);
      }
    }
  }

  lemma {:induction false} ExecuteText(t: State, d: Declaration)
    requires Execute(t, d).Some?
    ensures DeclaredText(d.name) in Execute(t, d).value.locals
    ensures Execute(t, d).value.locals[DeclaredText(d.name)] ==
      if d.form.FromCounter? then Execute(t, d).value.ids[|t.ids|].value else 0
  {
    hide Collapse, DeclaredText;
  }

  /** The state of the first call after `n` declarations. */
  function After(f: MockFunction, counters: seq<string>, n: nat): State
    requires Compiles(f, counters) && IsShort(f) && n <= |f.declarations|
  {
    FirstCallGoesWell(f, counters, n);
    ExecuteFirst(Enter(Begin(counters), First(f)), f, n).value
  }

  lemma {:induction false} AfterGoesWell(f: MockFunction, counters: seq<string>, n: nat)
    requires Compiles(f, counters) && IsShort(f) && n <= |f.declarations|
    ensures GoesWell(counters, Begin(counters), f, n, After(f, counters, n)) && Begin(counters).ids == []
    ensures n > 0 ==> Execute(After(f, counters, n - 1), f.declarations[n - 1]) == Some(After(f, counters, n))
  {
    hide Compiles, IsShort, GoesWell, Execute, Enter;
    FirstCallGoesWell(f, counters, n);
    if n > 0 {
      FirstCallGoesWell(f, counters, n - 1);
    }
  }

  lemma {:induction false} IdsStay(f: MockFunction, counters: seq<string>, i: nat, n: nat)
    requires Compiles(f, counters) && IsShort(f) && i <= n <= |f.declarations|
    ensures After(f, counters, i).ids <= After(f, counters, n).ids
  {
    hide Compiles, IsShort, GoesWell, Execute, After;
    if i < n {
      IdsStay(f, counters, i, n - 1);
      AfterGoesWell(f, counters, n);
      ExecuteDeclares(After(f, counters, n - 1), f.declarations[n - 1]);
    }
  }

  lemma {:induction false} HitsStay(f: MockFunction, counters: seq<string>, i: nat, n: nat, name: string)
    requires Compiles(f, counters) && IsShort(f) && i <= n <= |f.declarations|
    ensures Hits(After(f, counters, i).ids, name) <= Hits(After(f, counters, n).ids, name)
  {
    hide Compiles, IsShort, After, Hits;
    IdsStay(f, counters, i, n);
    var ids := After(f, counters, n).ids;
    assert ids[..|After(f, counters, i).ids|] == After(f, counters, i).ids;
    HitsGrow(ids, |After(f, counters, i).ids|, name);
  }

  lemma {:induction false} NoEqualAfter(
    mocks: seq<MockFunction>, f: MockFunction, counters: seq<string>, i: nat, n: nat)
    requires UnplainSetting(mocks, f, counters, i) && n <= |f.declarations|
    ensures
      var own := f.declarations[i].form.counter;
      NoEqual(f, i, InitialValue(own) + Hits(After(f, counters, i + 1).ids, own), n, After(f, counters, n))
  {
    hide Compiles, GoesWell, Execute, After, Hits, InitialValue, RequestsKeepTheirNames, NoAlias, PlainIdsStay,
      IsRequestCounter, Plain, CleanName, NoEqual, ReadsNoEqual, IncrementAndRead, Collapse;
    var own := f.declarations[i].form.counter;
    var h := Hits(After(f, counters, i + 1).ids, own);
    if n == 0 {
      NoEqualAtFirst(f, counters, i, InitialValue(own) + h);
    } else {
      NoEqualAfter(mocks, f, counters, i, n - 1);
      AfterGoesWell(f, counters, n - 1);
      AfterGoesWell(f, counters, n);
      var t, u, d := After(f, counters, n - 1), After(f, counters, n), f.declarations[n - 1];
      FewIds(f, counters, n - 1);
      if d.form.FromCounter? {
        ExecuteReads(t, d, d.form.counter);
        if n - 1 > i {
          HitsStay(f, counters, i + 1, n - 1, own);
        }
        ReadIsFar(mocks, f, counters, Begin(counters), i, h, n - 1, t, d.form.counter);
      }
      StepKeepsNoEqual(f, i, InitialValue(own) + h, n - 1, t, u);
    }
  }

  lemma {:induction false} FewIds(f: MockFunction, counters: seq<string>, n: nat)
    requires Compiles(f, counters) && IsShort(f) && n <= |f.declarations|
    ensures |After(f, counters, n).ids| + 1 < SHIFTED
  {
    hide Compiles, After, HasExecuted, Consistent, Rooted;
    AfterGoesWell(f, counters, n);
  }

  lemma {:induction false} ExecuteReads(t: State, d: Declaration, counter: string)
    requires d.form == FromCounter(counter) && Execute(t, d).Some?
    ensures IncrementAndRead(t, counter).Some?
    ensures IncrementAndRead(t, counter).value.ids == Execute(t, d).value.ids
    ensures |Execute(t, d).value.ids| == |t.ids| + 1
  {
    hide Collapse, DeclaredText;
  }

  lemma {:induction false} NoEqualAtFirst(f: MockFunction, counters: seq<string>, i: nat, r: nat)
    requires Compiles(f, counters) && IsShort(f) && i < |f.declarations| && IsRequest(f.declarations[i].form)
    ensures NoEqual(f, i, r, 0, After(f, counters, 0))
  {
    hide Compiles, CleanName, IsRequestCounter, Run;
    assert forall name :: name in After(f, counters, 0).locals ==> After(f, counters, 0).locals[name] == 0;
  }

  lemma {:induction false} IdsAfter(f: MockFunction, counters: seq<string>, n: nat)
    requires Compiles(f, counters) && IsShort(f) && n <= |f.declarations|
    ensures |After(f, counters, n).ids| == |UsedIn(f.declarations[..n])|
    ensures Consistent(counters, After(f, counters, n))
    ensures HasExecuted(counters, [], f, n, After(f, counters, n))
  {
    hide Compiles, After, Consistent, Rooted, UsedIn, IncrementsBefore;
    AfterGoesWell(f, counters, n);
    assert After(f, counters, n).ids[0..] == After(f, counters, n).ids;
  }

  /** The id that the i-th declaration reads. */
  lemma {:induction false} FirstUnplainRead(mocks: seq<MockFunction>, f: MockFunction, counters: seq<string>, i: nat)
    requires UnplainSetting(mocks, f, counters, i)
    ensures
      var own, t := f.declarations[i].form.counter, After(f, counters, |f.declarations|);
      var k := |UsedIn(f.declarations[..i])|;
      k < |t.ids| && t.ids[k].value == InitialValue(own) + Hits(After(f, counters, i + 1).ids, own)
  {
    hide Compiles, IsShort, Execute, After, Hits, InitialValue, RequestsKeepTheirNames, NoAlias, PlainIdsStay,
      IsRequestCounter, Plain, Collapse, UsedIn, Consistent, HasExecuted;
    var own := f.declarations[i].form.counter;
    var t, u := After(f, counters, i), After(f, counters, i + 1);
    IdsAfter(f, counters, i);
    AfterGoesWell(f, counters, i + 1);
    ExecuteReads(t, f.declarations[i], own);
    IncrementIsConsistent(counters, t, own);
    AfterGoesWell(f, counters, i);
    RequestReadsState(f, counters, Begin(counters), i, t);
    StateRead(counters, t, own, IncrementAndRead(t, own).value);
    IdsStay(f, counters, i + 1, |f.declarations|);
    assert u.ids[|t.ids|] == After(f, counters, |f.declarations|).ids[|t.ids|];
  }

  lemma {:induction false} EmittedNameIsDeclared(f: MockFunction, counters: seq<string>, i: nat)
    requires Compiles(f, counters) && IsShort(f) && DeclaresArguments(f) && i < |f.declarations|
    ensures ArgumentText(f.declarations[i].name) != ""
    ensures
      var t, name := After(f, counters, |f.declarations|), ArgumentText(f.declarations[i].name);
      name in t.locals || (name in t.values && name in counters)
  {
    hide After, ReadFrom, ArgumentText;
    var arg, n := f.declarations[i].name, |f.declarations|;
    assert f.declarations[i] in f.declarations;
    var e :| 0 <= e < |f.emits| && arg in f.emits[e].args;
    assert f.emits[e] in f.emits;
    IdsAfter(f, counters, n);
    assert DeclaredTexts(f)[..n] == DeclaredTexts(f);
    assert Refers(f, counters, n, ArgumentText(arg)) != Undeclared;
  }

  /** A variable that the emit can carry in place of the id does not hold the same value. */
  lemma OtherVariableDiffers(f: MockFunction, i: nat, h: nat, name: string, x: nat)
    requires IsFirstUnplain(f, i) && DeclaresArguments(f) && h < SHIFTED
    requires f.declarations[i].name == Some(name) && name != ""
    requires
      HoldsNoEqual(f, i, InitialValue(f.declarations[i].form.counter) + h, |f.declarations|, name, x)
    ensures x != InitialValue(f.declarations[i].form.counter) + h
  {
    hide CleanName, IsRequestCounter, Collapse, HasDoubleDollar;
    var own, n := f.declarations[i].form.counter, |f.declarations|;
    CollapseKeepsIff(name);
    forall k | 0 <= k < n && Plain(f.declarations[k].name)
      ensures DeclaredText(f.declarations[k].name) != name
    {
      PlainIsEmittedAsDeclared(f.declarations[k].name);
      if k < i {
        assert f.declarations[k].name != f.declarations[i].name;
      }
    }
    TypeOfId(RequestType(own), h);
  }

  lemma {:induction false} SmallDiffers(counters: seq<string>, t: State, own: string, h: nat, name: string)
    requires Consistent(counters, t) && |t.ids| < SHIFTED && name in counters && name in t.values
    requires HasDoubleDollar(name) && IsRequestCounter(own)
    ensures t.values[name] != InitialValue(own) + h
  {
    hide CleanName, Hits, IdIsRight;
    if IsRequestCounter(name) {
      RequestHasNoDollar(name);
    }
  }

  lemma {:induction false} UnplainIsUnsound(mocks: seq<MockFunction>, counters: seq<string>, f: MockFunction, i: nat)
    requires UnplainSetting(mocks, f, counters, i) && DeclaresArguments(f)
    ensures !AlwaysSound(mocks, counters)
  {
    hide Compiles, IsShort, Execute, After, Hits, InitialValue, RequestsKeepTheirNames, NoAlias, PlainIdsStay,
      HasDoubleDollar, IsRequestCounter, Collapse, UsedIn, Consistent, HasExecuted, DeclaresArguments, HoldsNoEqual,
      AlwaysSound;
    var own, n := f.declarations[i].form.counter, |f.declarations|;
    var t, h := After(f, counters, n), Hits(After(f, counters, i + 1).ids, own);
    NoEqualAfter(mocks, f, counters, i, n);
    FirstUnplainRead(mocks, f, counters, i);
    EmittedNameIsDeclared(f, counters, i);
    FewIds(f, counters, n);
    IdsAfter(f, counters, n);
    HitsStay(f, counters, i + 1, n, own);
    var name := f.declarations[i].name.value;
    if name in t.locals {
      OtherVariableDiffers(f, i, h, name, t.locals[name]);
    } else {
      SmallDiffers(counters, t, own, h, name);
    }
    FirstCallGoesWell(f, counters, n);
    AfterIsExecution(f, counters);
    ChangedIsUnsound(mocks, counters, f, i);
  }

  lemma {:induction false} AfterIsExecution(f: MockFunction, counters: seq<string>)
    requires Compiles(f, counters) && IsShort(f)
    ensures ExecuteFirst(Enter(Begin(counters), First(f)), f, |f.declarations|) ==
      Some(After(f, counters, |f.declarations|))
  {
    hide Compiles, IsShort, ExecuteFirst, Enter, Begin;
    FirstCallGoesWell(f, counters, |f.declarations|);
  }

  // ---------------------------------------------------------------------------------------------
  // Exactly when
  // ---------------------------------------------------------------------------------------------

  /** An id that is read unsoundly is emitted unsoundly. */
  lemma {:induction false} UnsoundReadsAreEmitted(mocks: seq<MockFunction>, counters: seq<string>)
    requires forall f :: f in mocks ==> DeclaresArguments(f)
    requires !ReadsAlwaysSound(mocks, counters)
    ensures !AlwaysSound(mocks, counters)
  {
    hide Run, InRange, IdsAreSound, EmittedAreSound, DeclaresArguments;
    var calls :| CallsOf(mocks, calls) && InRange(Run(counters, calls).ids) && !IdsAreSound(Run(counters, calls).ids);
    RunEmitsAllIds(counters, calls);
    SoundIffReadSoundly(Run(counters, calls));
  }

  lemma {:induction false} SoundIfAll(mocks: seq<MockFunction>, counters: seq<string>)
    requires forall f :: f in mocks ==>
      Compiles(f, counters) && DeclaresArguments(f) && RequestsKeepTheirNames(f) && RequestsStayAsRead(f)
    requires NoAlias(mocks)
    ensures AlwaysSound(mocks, counters)
  {
    hide Run, InRange, IdsAreSound, EmittedAreSound, EmittedAsRead, DeclaresArguments, Compiles, RequestsKeepTheirNames,
      RequestsStayAsRead, NoAlias;
    SoundIfOwn(mocks, counters);
    forall calls | CallsOf(mocks, calls) && InRange(Run(counters, calls).ids)
      ensures EmittedAreSound(Run(counters, calls))
    {
      RunEmitsAllIds(counters, calls);
      RunEmitsAsRead(counters, calls);
      SoundIffReadSoundly(Run(counters, calls));
    }
  }

  lemma {:induction false} FirstUnplain(f: MockFunction, n: nat) returns (i: nat)
    requires n < |f.declarations| && IsRequest(f.declarations[n].form) && !Plain(f.declarations[n].name)
    ensures IsFirstUnplain(f, i)
  {
    hide Plain, IsRequestCounter;
    if k :| 0 <= k < n && IsRequest(f.declarations[k].form) && !Plain(f.declarations[k].name) {
      i := FirstUnplain(f, k);
    } else {
      i := n;
    }
  }

  lemma {:induction false} ChangesAreUnsound(mocks: seq<MockFunction>, counters: seq<string>, f: MockFunction)
    requires f in mocks && NoAlias(mocks) && RequestsKeepTheirNames(f) && !RequestsStayAsRead(f)
    requires Compiles(f, counters) && IsShort(f) && DeclaresArguments(f)
    ensures !AlwaysSound(mocks, counters)
  {
    hide Compiles, IsShort, DeclaresArguments, RequestsKeepTheirNames, NoAlias, AlwaysSound, StaysAsRead, IsRequest;
    if PlainIdsStay(f) {
      var n :| 0 <= n < |f.declarations| && IsRequest(f.declarations[n].form) && !StaysAsRead(f, n);
      var i := FirstUnplain(f, n);
      UnplainIsUnsound(mocks, counters, f, i);
    } else {
      var k :| 0 <= k < |f.declarations| && IsRequest(f.declarations[k].form) && Plain(f.declarations[k].name)
               && !StaysAsRead(f, k);
      LaterIncrementIsUnsound(mocks, counters, f, k);
    }
  }

  /**
   In every run of these mock functions the emitted request ids are sound, if and only if every request counter
   keeps its name, every request id stays as it was read, and no two counters that are used share a request name.
   */
  lemma {:induction false} MocksAreSoundIff(mocks: seq<MockFunction>, counters: seq<string>)
    requires forall f :: f in mocks ==> Compiles(f, counters) && IsShort(f) && DeclaresArguments(f)
    ensures AlwaysSound(mocks, counters) <==>
      NoAlias(mocks) && forall f :: f in mocks ==> RequestsKeepTheirNames(f) && RequestsStayAsRead(f)
  {
    hide *;
    ReadsAreSoundIff(mocks, counters);
    if !(NoAlias(mocks) && forall f :: f in mocks ==> RequestsKeepTheirNames(f)) {
      UnsoundReadsAreEmitted(mocks, counters);
    } else if f :| f in mocks && !RequestsStayAsRead(f) {
      ChangesAreUnsound(mocks, counters, f);
    } else {
      SoundIfAll(mocks, counters);
    }
  }

  // The conditions, read off the source.

  /** The functions that are mocked: they may change state, can be called from outside, and emit something. */
  predicate IsGenerated(def: FunctionDef) {
    Mocked(def) && Emits(Body(def)) != []
  }

  predicate TakesIdAt(def: FunctionDef, c: Context, i: nat, counter: string) {
    i < |ParametersToDeclare(def, c)| && IdCounter(def, c, ParametersToDeclare(def, c)[i]) == Some(counter)
  }

  /** No counter of a request type is named like an input or an event parameter declared before its id. */
  ghost predicate KeepsRequestCounters(def: FunctionDef, c: Context) {
    forall i, counter :: TakesIdAt(def, c, i, counter) && IsRequestCounter(counter) ==> KeepsCounter(def, c, i)
  }

  /** Some generated function takes an id from this counter. */
  ghost predicate GivesIds(defs: seq<FunctionDef>, c: Context, counter: string) {
    exists def, i :: def in defs && IsGenerated(def) && TakesIdAt(def, c, i, counter)
  }

  ghost predicate OneCounterPerRequest(defs: seq<FunctionDef>, c: Context) {
    forall a, b :: GivesIds(defs, c, a) && GivesIds(defs, c, b) && SameRequest(a, b) ==> a == b
  }

  lemma {:induction false} UsedIffDeclared(ds: seq<Declaration>, counter: string)
    ensures counter in UsedIn(ds) <==> exists i :: 0 <= i < |ds| && ds[i].form == FromCounter(counter)
  {
    if ds != [] {
      var init, last := ds[..|ds| - 1], ds[|ds| - 1];
      UsedIffDeclared(init, counter);
      if i :| 0 <= i < |ds| && ds[i].form == FromCounter(counter) {
        if i < |init| {
          assert init[i] == ds[i];
        }
      }
      if counter in UsedIn(init) {
        var i :| 0 <= i < |init| && init[i].form == FromCounter(counter);
        assert ds[i] == init[i];
      }
      if last.form == FromCounter(counter) {
        assert ds[|ds| - 1] == last;
      }
    }
  }

  lemma TakesIdIff(def: FunctionDef, c: Context, f: MockFunction, i: nat, counter: string)
    requires DeclaresInputs(def, c, f)
    ensures TakesIdAt(def, c, i, counter) <==> i < |f.declarations| && f.declarations[i].form == FromCounter(counter)
  {
    hide ParametersToDeclare, IdCounter;
  }

  lemma RequestsKeepIff(def: FunctionDef, c: Context, f: MockFunction)
    requires DeclaresInputs(def, c, f)
    ensures RequestsKeepTheirNames(f) <==> KeepsRequestCounters(def, c)
  {
    hide DeclaresInputs, KeepsItsName, KeepsCounter, IsRequestCounter, TakesIdAt;
    forall i: nat, counter
      ensures TakesIdAt(def, c, i, counter) <==>
        i < |f.declarations| && f.declarations[i].form == FromCounter(counter)
    {
      TakesIdIff(def, c, f, i, counter);
    }
    forall i | 0 <= i < |f.declarations|
      ensures i < |ParametersToDeclare(def, c)| && (KeepsItsName(f, i) <==> KeepsCounter(def, c, i))
    {
      MockHasLength(def, c, f);
      KeepsItsNameIff(def, c, f, i);
    }
  }

  lemma {:induction false} MockFor(defs: seq<FunctionDef>, c: Context, mocks: seq<MockFunction>, def: FunctionDef)
    returns (f: MockFunction)
    requires MocksOf(defs, c) == Some(mocks) && def in defs && IsGenerated(def)
    ensures f in mocks && DeclaresInputs(def, c, f)
  {
    hide MocksOf, MockOf, DeclaresInputs, Mocked, Emits;
    MockIsGenerated(defs, c, def);
    MockDeclaresInputs(def, c);
    f := MockOf(def, Body(def), c).f;
  }

  lemma {:induction false} FunctionOf(defs: seq<FunctionDef>, c: Context, mocks: seq<MockFunction>, f: MockFunction)
    returns (def: FunctionDef)
    requires MocksOf(defs, c) == Some(mocks) && f in mocks
    ensures def in defs && IsGenerated(def) && DeclaresInputs(def, c, f)
  {
    hide MocksOf, MockOf, DeclaresInputs, Mocked, Emits;
    def := MockOrigin(defs, c, f);
    MockDeclaresInputs(def, c);
    MockEmits(def, c);
  }

  lemma MockEmits(def: FunctionDef, c: Context)
    requires MockOf(def, Body(def), c).Mock?
    ensures Emits(Body(def)) != []
  {
    hide Emits, EventsOf, DeclareAll;
  }

  lemma {:induction false} UsedIffGives(defs: seq<FunctionDef>, c: Context, mocks: seq<MockFunction>, counter: string)
    requires MocksOf(defs, c) == Some(mocks)
    ensures IsUsed(mocks, counter) <==> GivesIds(defs, c, counter)
  {
    hide MocksOf, DeclaresInputs, IsGenerated, TakesIdAt, UsedIn;
    if IsUsed(mocks, counter) {
      var f :| f in mocks && counter in CountersUsed(f);
      var def := FunctionOf(defs, c, mocks, f);
      UsedIffDeclared(f.declarations, counter);
      var i :| 0 <= i < |f.declarations| && f.declarations[i].form == FromCounter(counter);
      TakesIdIff(def, c, f, i, counter);
    }
    if GivesIds(defs, c, counter) {
      var def, i :| def in defs && IsGenerated(def) && TakesIdAt(def, c, i, counter);
      var f := MockFor(defs, c, mocks, def);
      TakesIdIff(def, c, f, i, counter);
      UsedIffDeclared(f.declarations, counter);
    }
  }

  /** The id's name is plain, and no id declared after it takes a counter that is printed as this name. */
  ghost predicate NameIsLeftAlone(def: FunctionDef, c: Context, i: nat)
    requires i < |ParametersToDeclare(def, c)|
  {
    var name := ParametersToDeclare(def, c)[i].name;
    Plain(name) && forall j, other :: j > i && TakesIdAt(def, c, j, other) ==> Collapse(other) != name.value
  }

  ghost predicate RequestsAreLeftAlone(def: FunctionDef, c: Context) {
    forall i, counter :: TakesIdAt(def, c, i, counter) && IsRequestCounter(counter) ==> NameIsLeftAlone(def, c, i)
  }

  lemma LeftAloneIff(def: FunctionDef, c: Context, f: MockFunction, i: nat)
    requires DeclaresInputs(def, c, f) && i < |f.declarations| == |ParametersToDeclare(def, c)|
    ensures StaysAsRead(f, i) <==> NameIsLeftAlone(def, c, i)
  {
    hide ParametersToDeclare, IdCounter, TakesIdAt, Plain, Collapse;
    var name := f.declarations[i].name;
    assert name == ParametersToDeclare(def, c)[i].name by {
      NamesOfInputs(def, c, f, i);
    }
    forall j: nat, other
      ensures TakesIdAt(def, c, j, other) <==> j < |f.declarations| && f.declarations[j].form == FromCounter(other)
    {
      TakesIdIff(def, c, f, j, other);
    }
    if Plain(name) {
      PlainIsEmittedAsDeclared(name);
    }
  }

  lemma NamesOfInputs(def: FunctionDef, c: Context, f: MockFunction, i: nat)
    requires DeclaresInputs(def, c, f) && i < |f.declarations| == |ParametersToDeclare(def, c)|
    ensures f.declarations[i].name == ParametersToDeclare(def, c)[i].name
  {
    hide ParametersToDeclare, IdCounter;
  }

  lemma RequestsStayIff(def: FunctionDef, c: Context, f: MockFunction)
    requires DeclaresInputs(def, c, f)
    ensures RequestsStayAsRead(f) <==> RequestsAreLeftAlone(def, c)
  {
    hide DeclaresInputs, StaysAsRead, NameIsLeftAlone, IsRequestCounter, TakesIdAt;
    MockHasLength(def, c, f);
    forall i: nat, counter
      ensures TakesIdAt(def, c, i, counter) <==> i < |f.declarations| && f.declarations[i].form == FromCounter(counter)
    {
      TakesIdIff(def, c, f, i, counter);
    }
    forall i | 0 <= i < |f.declarations|
      ensures StaysAsRead(f, i) <==> NameIsLeftAlone(def, c, i)
    {
      LeftAloneIff(def, c, f, i);
    }
  }

  /** The function an emitting mock was generated for, or the other way round, and their conditions. */
  ghost predicate BelongTogether(def: FunctionDef, c: Context, f: MockFunction) {
    && (RequestsKeepTheirNames(f) <==> KeepsRequestCounters(def, c))
    && (RequestsStayAsRead(f) <==> RequestsAreLeftAlone(def, c))
  }

  lemma InputsBelong(def: FunctionDef, c: Context, f: MockFunction)
    requires DeclaresInputs(def, c, f)
    ensures BelongTogether(def, c, f)
  {
    RequestsKeepIff(def, c, f);
    RequestsStayIff(def, c, f);
  }

  lemma {:induction false} GeneratedDeclareArguments(
    defs: seq<FunctionDef>, c: Context, mocks: seq<MockFunction>, f: MockFunction)
    requires MocksOf(defs, c) == Some(mocks) && f in mocks
    ensures DeclaresArguments(f)
  {
    hide MocksOf, MockOf, DeclaresArguments, Mocked;
    var def := MockOrigin(defs, c, f);
    MockDeclarations(def, Body(def), c);
  }

  /**
   In every run of the printed contract, with any arguments, the request ids it emits are the values their
   counters gave out, distinct and typed, if and only if (1) no two counters that give ids share a name up to the
   `Counter` suffix, (2) no request counter is named like an input or an event parameter declared before its id,
   and (3) every request id has a plain name, under which no id after it increments a counter. This is about
   contracts that compile, and whose functions are short enough for a contract's code.
   */
  lemma {:induction false} GeneratedIdsAreSoundIff(
    defs: seq<FunctionDef>, events: seq<EventDef>, structs: seq<string>, mocks: seq<MockFunction>)
    requires MocksOf(defs, ContextOf(defs, events, structs)) == Some(mocks)
    requires forall f :: f in mocks ==> Compiles(f, DeclaredCounters(defs)) && IsShort(f)
    ensures
      var c := ContextOf(defs, events, structs);
      AlwaysSound(mocks, DeclaredCounters(defs)) <==>
        && OneCounterPerRequest(defs, c)
        && forall def :: def in defs && IsGenerated(def) ==>
             KeepsRequestCounters(def, c) && RequestsAreLeftAlone(def, c)
  {
    hide MocksOf, ContextOf, DeclaredCounters, AlwaysSound, Compiles, IsShort, IsGenerated, DeclaresInputs, IsUsed,
      GivesIds, SameRequest, RequestsKeepTheirNames, KeepsRequestCounters, RequestsStayAsRead, RequestsAreLeftAlone,
      DeclaresArguments;
    var c := ContextOf(defs, events, structs);
    forall f | f in mocks
      ensures DeclaresArguments(f)
    {
      GeneratedDeclareArguments(defs, c, mocks, f);
    }
    MocksAreSoundIff(mocks, DeclaredCounters(defs));
    forall counter
      ensures IsUsed(mocks, counter) <==> GivesIds(defs, c, counter)
    {
      UsedIffGives(defs, c, mocks, counter);
    }
    forall def | def in defs && IsGenerated(def)
      ensures exists f :: f in mocks && BelongTogether(def, c, f)
    {
      var f := MockFor(defs, c, mocks, def);
      InputsBelong(def, c, f);
    }
    forall f | f in mocks
      ensures exists def :: def in defs && IsGenerated(def) && BelongTogether(def, c, f)
    {
      var def := FunctionOf(defs, c, mocks, f);
      InputsBelong(def, c, f);
    }
  }
}
