/**
 Agreement and confluence, with one set of senders and one threshold throughout. If no sender votes twice
 for a handle, the decision on every handle is independent of the order of the calls exactly when the
 threshold is a majority; if senders may, exactly where nothing can be decided.
 */
module Confluence {
  import opened Lists
  import opened Words
  import opened Wrappers
  import opened Votes
  import opened CommitsStorage
  import opened CommitsInvariants
  import opened Consensus

  predicate Under(calls: seq<Call>, env: Env) {
    forall c :: c in calls ==> c.env == env
  }

  predicate Registered(c: Call) {
    c.vote.sender in c.env.senders && ChainId(c.vote.handle) in c.env.chains
  }

  function CallDigest(c: Call): Digest {
    VoteDigest(c.vote.handle, c.vote.material)
  }

  /** No sender votes twice for one handle. */
  ghost predicate VoteOnce(calls: seq<Call>) {
    forall i, j :: 0 <= i < j < |calls| ==>
      !(calls[i].vote.handle == calls[j].vote.handle && calls[i].vote.sender == calls[j].vote.sender)
  }

  // ---------------------------------------------------------------------------------------------
  // Agreement: under a majority threshold no two materials of a handle reach it
  // ---------------------------------------------------------------------------------------------

  lemma {:induction false} LoggedCallsAreRegistered(calls: seq<Call>, env: Env, i: nat)
    requires Under(calls, env) && i < |LogRun(calls).log|
    ensures
      var v := LogRun(calls).log[i].vote;
      v.sender in env.senders && ChainId(v.handle) in env.chains && Call(v, env) in calls
  {
    if calls != [] {
      var init := calls[..|calls| - 1];
      if i < |LogRun(init).log| {
        LoggedCallsAreRegistered(init, env, i);
      } else {
        assert calls[|calls| - 1].env == env;
      }
    }
  }

  lemma {:induction false} VotersAreRegistered(calls: seq<Call>, env: Env, h: Word, m: Material)
    requires Under(calls, env)
    ensures Members(VotesFor(LogRun(calls).log, h, m)) <= env.senders
    ensures VotesFor(LogRun(calls).log, h, m) != [] ==> ChainId(h) in env.chains
  {
    hide LogRun;
    var log, d := LogRun(calls).log, VoteDigest(h, m);
    forall a | a in VotesFor(log, h, m)
      ensures a in env.senders && ChainId(h) in env.chains
    {
      SendersAreVoters(log, d, a);
      var i :| 0 <= i < |log| && EntryDigest(log[i]) == d && log[i].vote.sender == a;
      LoggedCallsAreRegistered(calls, env, i);
    }
    if VotesFor(log, h, m) != [] {
      assert VotesFor(log, h, m)[0] in VotesFor(log, h, m);
    }
  }

  /** Two materials of one handle share their voters between them. */
  lemma VotesShareSenders(calls: seq<Call>, env: Env, h: Word, m1: Material, m2: Material)
    requires Under(calls, env) && m1 != m2
    ensures
      var s := Run(calls).storage;
      s.Counter(VoteDigest(h, m1)) + s.Counter(VoteDigest(h, m2)) <= |env.senders|
  {
    var s, log := Run(calls).storage, LogRun(calls).log;
    RunRefinesLog(calls);
    var d1, d2 := VoteDigest(h, m1), VoteDigest(h, m2);
    assert s.Senders(d1) == VotesFor(log, h, m1) && s.Senders(d2) == VotesFor(log, h, m2);
    ListsMatchCounters(calls, d1);
    ListsMatchCounters(calls, d2);
    VotersAreRegistered(calls, env, h, m1);
    VotersAreRegistered(calls, env, h, m2);
    var a1, a2 := Members(s.Senders(d1)), Members(s.Senders(d2));
    forall a | a in a1
      ensures a !in a2
    {
      ListsOfOneHandleAreDisjoint(calls, h, m1, m2, a);
    }
    DistinctHasSetSize(s.Senders(d1));
    DistinctHasSetSize(s.Senders(d2));
    assert |a1 + a2| == |a1| + |a2|;
    SubsetIsSmaller(a1 + a2, env.senders);
  }

  lemma {:induction false} SubsetIsSmaller<T>(a: set<T>, b: set<T>)
    requires a <= b
    ensures |a| <= |b|
  {
    assert b == a + (b - a);
  }

  lemma Agreement(calls: seq<Call>, env: Env, h: Word, m1: Material, m2: Material)
    requires Under(calls, env)
    requires 2 * env.threshold > |env.senders|
    requires Run(calls).storage.Counter(VoteDigest(h, m1)) >= env.threshold
    requires Run(calls).storage.Counter(VoteDigest(h, m2)) >= env.threshold
    ensures m1 == m2
  {
    if m1 != m2 {
      VotesShareSenders(calls, env, h, m1, m2);
    }
  }

  // ---------------------------------------------------------------------------------------------
  // Counters do not depend on the order of the votes
  // ---------------------------------------------------------------------------------------------

  function Weight(c: Call, d: Digest): nat {
    if Registered(c) && CallDigest(c) == d then 1 else 0
  }

  function CountCalls(calls: seq<Call>, d: Digest): nat {
    if calls == [] then 0 else CountCalls(calls[..|calls| - 1], d) + Weight(calls[|calls| - 1], d)
  }

  /** Where a logged vote came from. */
  lemma {:induction false} LoggedFromCall(calls: seq<Call>, i: nat) returns (j: nat)
    requires i < |LogRun(calls).log|
    ensures j < |calls| && calls[j].vote == LogRun(calls).log[i].vote
  {
    var init := calls[..|calls| - 1];
    if i < |LogRun(init).log| {
      j := LoggedFromCall(init, i);
    } else {
      j := |calls| - 1;
    }
  }

  /** Where a vote came from that was logged after the first calls: a later call that passed the registry checks. */
  lemma {:induction false} LoggedFrom(calls: seq<Call>, more: seq<Call>, i: nat) returns (j: nat)
    requires |LogRun(calls).log| <= i < |LogRun(calls + more).log|
    ensures j < |more| && Registered(more[j])
    ensures LogRun(calls + more).log[i] == Entry(more[j].vote, more[j].env.threshold)
  {
    assert calls + [] == calls;
    var init := more[..|more| - 1];
    assert (calls + more)[..|calls + more| - 1] == calls + init;
    if i < |LogRun(calls + init).log| {
      j := LoggedFrom(calls, init, i);
      LogRunGrowsByOne(calls + more);
    } else {
      j := |more| - 1;
    }
  }

  function Entries(calls: seq<Call>): (log: Log)
    ensures |log| == |calls|
    ensures forall i :: 0 <= i < |calls| ==> log[i] == Entry(calls[i].vote, calls[i].env.threshold)
  {
    seq(|calls|, i requires 0 <= i < |calls| => Entry(calls[i].vote, calls[i].env.threshold))
  }

  /** A call by a registered sender that has not voted yet is logged. */
  lemma FreshCallIsLogged(log: Log, c: Call)
    requires Registered(c) && !HasVoted(log, c.vote.handle, c.vote.sender)
    ensures LogStep(log, c).0 == log + Entries([c])
  {
    hide Decided, SendersOf, HasVoted;
  }

  lemma StillNotVoted(log: Log, init: seq<Call>, c: Call)
    requires VoteOnce(init + [c]) && !HasVoted(log, c.vote.handle, c.vote.sender)
    ensures !HasVoted(log + Entries(init), c.vote.handle, c.vote.sender)
  {
    var longer := log + Entries(init);
    forall i | 0 <= i < |longer|
      ensures !(longer[i].vote.handle == c.vote.handle && longer[i].vote.sender == c.vote.sender)
    {
      if i >= |log| {
        var k := i - |log|;
        assert (init + [c])[k] == init[k] && (init + [c])[|init|] == c;
      }
    }
  }

  /** Calls by registered senders that have not voted yet are all logged. */
  lemma {:induction false} FreshCallsAreLogged(calls: seq<Call>, more: seq<Call>)
    requires VoteOnce(more)
    requires forall c :: c in more ==>
      Registered(c) && !HasVoted(LogRun(calls).log, c.vote.handle, c.vote.sender)
    ensures LogRun(calls + more).log == LogRun(calls).log + Entries(more)
  {
    hide Registered, HasVoted, LogStep;
    if more == [] {
      assert calls + more == calls;
    } else {
      var init, c := more[..|more| - 1], more[|more| - 1];
      assert more == init + [c];
      FreshCallsAreLogged(calls, init);
      assert (calls + more)[..|calls + more| - 1] == calls + init;
      assert c in more;
      StillNotVoted(LogRun(calls).log, init, c);
      FreshCallIsLogged(LogRun(calls + init).log, c);
      assert Entries(more) == Entries(init) + Entries([c]);
    }
  }

  /** In particular, a run of nothing but such calls is its log. */
  lemma FreshRunIsLogged(calls: seq<Call>)
    requires VoteOnce(calls) && forall c :: c in calls ==> Registered(c)
    ensures LogRun(calls).log == Entries(calls)
  {
    hide Registered, VoteOnce, LogStep;
    assert [] + calls == calls && [] + Entries(calls) == Entries(calls);
    assert LogRun([]).log == [];
    forall c | c in calls
      ensures !HasVoted(LogRun([]).log, c.vote.handle, c.vote.sender)
    {
    }
    FreshCallsAreLogged([], calls);
  }

  lemma {:induction false} SendersConcat(a: Log, b: Log, d: Digest)
    ensures SendersOf(a + b, d) == SendersOf(a, d) + SendersOf(b, d)
  {
    if b == [] {
      assert a + b == a;
    } else {
      SendersConcat(a, b[..|b| - 1], d);
      assert (a + b)[..|a + b| - 1] == a + b[..|b| - 1];
    }
  }

  /** Calls that all vote for one material are all its senders. */
  lemma {:induction false} AllForOne(calls: seq<Call>, h: Word, m: Material)
    requires forall c :: c in calls ==> c.vote.handle == h && c.vote.material == m
    ensures |VotesFor(Entries(calls), h, m)| == |calls|
    ensures forall i :: 0 <= i < |calls| ==> VotesFor(Entries(calls), h, m)[i] == calls[i].vote.sender
  {
    if calls != [] {
      AllForOne(calls[..|calls| - 1], h, m);
      assert Entries(calls)[..|calls| - 1] == Entries(calls[..|calls| - 1]);
    }
  }

  lemma LastPairIsNew(calls: seq<Call>)
    requires calls != [] && VoteOnce(calls)
    ensures
      var v := calls[|calls| - 1].vote;
      VoteOnce(calls[..|calls| - 1]) && !HasVoted(LogRun(calls[..|calls| - 1]).log, v.handle, v.sender)
  {
    var init, v := calls[..|calls| - 1], calls[|calls| - 1].vote;
    var log := LogRun(init).log;
    if HasVoted(log, v.handle, v.sender) {
      var i :| 0 <= i < |log| && log[i].vote.handle == v.handle && log[i].vote.sender == v.sender;
      var j := LoggedFromCall(init, i);
    }
  }

  lemma {:induction false} CountersCountCalls(calls: seq<Call>, d: Digest)
    requires VoteOnce(calls)
    ensures |SendersOf(LogRun(calls).log, d)| == CountCalls(calls, d)
  {
    if calls != [] {
      var init, c := calls[..|calls| - 1], calls[|calls| - 1];
      LastPairIsNew(calls);
      CountersCountCalls(init, d);
      LogSnoc(LogRun(init).log, Entry(c.vote, c.env.threshold), d);
    }
  }

  lemma {:induction false} CountConcat(a: seq<Call>, b: seq<Call>, d: Digest)
    ensures CountCalls(a + b, d) == CountCalls(a, d) + CountCalls(b, d)
  {
    if b == [] {
      assert a + b == a;
    } else {
      CountConcat(a, b[..|b| - 1], d);
      assert (a + b)[..|a + b| - 1] == a + b[..|b| - 1];
    }
  }

  lemma CountWithout(b: seq<Call>, i: nat, d: Digest)
    requires i < |b|
    ensures CountCalls(b, d) == CountCalls(b[..i] + b[i + 1..], d) + Weight(b[i], d)
  {
    assert b == b[..i + 1] + b[i + 1..];
    CountConcat(b[..i + 1], b[i + 1..], d);
    assert b[..i + 1][..i] == b[..i];
    CountConcat(b[..i], b[i + 1..], d);
  }

  lemma {:induction false} CountPermuted(a: seq<Call>, b: seq<Call>, d: Digest)
    requires multiset(a) == multiset(b)
    ensures CountCalls(a, d) == CountCalls(b, d)
  {
    if a == [] {
      assert |multiset(b)| == 0;
    } else {
      var i := PermutationDropsLast(a, b);
      CountPermuted(a[..|a| - 1], b[..i] + b[i + 1..], d);
      CountWithout(b, i, d);
    }
  }

  // ---------------------------------------------------------------------------------------------
  // Confluence
  // ---------------------------------------------------------------------------------------------

  /** The same calls, at most one per sender and handle, in another order. */
  ghost predicate Reordered(a: seq<Call>, b: seq<Call>) {
    VoteOnce(a) && VoteOnce(b) && multiset(a) == multiset(b)
  }

  ghost predicate SameDecisions(a: seq<Call>, b: seq<Call>) {
    forall h :: StoredMaterial(Run(a).storage, h) == StoredMaterial(Run(b).storage, h)
  }

  /** Under this registry and threshold, the order of the votes never matters if no sender votes twice for a handle. */
  ghost predicate OrderIndependent(env: Env) {
    forall a, b :: Under(a, env) && Under(b, env) && Reordered(a, b) ==> SameDecisions(a, b)
  }

  predicate AcceptsSomeHandle(env: Env) {
    exists h: Word :: ChainId(h) in env.chains
  }

  lemma CountsAgree(a: seq<Call>, b: seq<Call>, h: Word, m: Material)
    requires Reordered(a, b)
    ensures |VotesFor(LogRun(a).log, h, m)| == |VotesFor(LogRun(b).log, h, m)|
  {
    var d := VoteDigest(h, m);
    CountersCountCalls(a, d);
    CountersCountCalls(b, d);
    CountPermuted(a, b, d);
  }

  lemma QuorumIsDecision(calls: seq<Call>, env: Env, h: Word, m: Material)
    requires Under(calls, env)
    requires 2 * Quorum(env.threshold) > |env.senders| || !AcceptsSomeHandle(env)
    ensures StoredMaterial(Run(calls).storage, h) == Some(m)
      <==> |VotesFor(LogRun(calls).log, h, m)| >= Quorum(env.threshold)
  {
    var log, q := LogRun(calls).log, Quorum(env.threshold);
    StoredIsDecided(calls, h);
    LoggedUnder(calls, env.threshold);
    DecidedIffQuorum(log, env.threshold, h);
    VotersAreRegistered(calls, env, h, m);
    if |VotesFor(log, h, m)| >= q && Decided(log, h) != Some(m) {
      var other := Decided(log, h).value;
      RunRefinesLog(calls);
      var s := Run(calls).storage;
      assert s.Counter(VoteDigest(h, m)) == |VotesFor(log, h, m)|;
      assert s.Counter(VoteDigest(h, other)) == |VotesFor(log, h, other)|;
      VotesShareSenders(calls, env, h, m, other);
    }
  }

  lemma MajorityIsOrderIndependent(env: Env)
    requires 2 * Quorum(env.threshold) > |env.senders| || !AcceptsSomeHandle(env)
    ensures OrderIndependent(env)
  {
    forall a, b | Under(a, env) && Under(b, env) && Reordered(a, b)
      ensures SameDecisions(a, b)
    {
      forall h
        ensures StoredMaterial(Run(a).storage, h) == StoredMaterial(Run(b).storage, h)
      {
        forall m
          ensures StoredMaterial(Run(a).storage, h) == Some(m) <==> StoredMaterial(Run(b).storage, h) == Some(m)
        {
          CountsAgree(a, b, h, m);
          QuorumIsDecision(a, env, h, m);
          QuorumIsDecision(b, env, h, m);
        }
        var x, y := StoredMaterial(Run(a).storage, h), StoredMaterial(Run(b).storage, h);
        if x.Some? {
          assert y == Some(x.value);
        }
      }
    }
  }

  // Without a majority, two camps of a quorum each decide in favour of whoever votes first.

  function Camp(voters: seq<Address>, h: Word, m: Material, env: Env): (calls: seq<Call>)
    ensures |calls| == |voters|
    ensures forall i :: 0 <= i < |voters| ==> calls[i] == Call(Vote(h, m, voters[i]), env)
  {
    seq(|voters|, i requires 0 <= i < |voters| => Call(Vote(h, m, voters[i]), env))
  }

  lemma {:induction false} CampCount(voters: seq<Address>, h: Word, m: Material, env: Env, d: Digest)
    requires Members(voters) <= env.senders && ChainId(h) in env.chains
    ensures CountCalls(Camp(voters, h, m, env), d) == if d == VoteDigest(h, m) then |voters| else 0
  {
    if voters != [] {
      var init := voters[..|voters| - 1];
      assert voters[|voters| - 1] in Members(voters);
      assert forall a :: a in Members(init) ==> a in Members(voters);
      CampCount(init, h, m, env, d);
      assert Camp(voters, h, m, env)[..|voters| - 1] == Camp(init, h, m, env);
    }
  }

  /** A camp of at least a quorum that votes first has its material stored, whatever follows. */
  lemma FirstCampDecides(voters: seq<Address>, h: Word, m: Material, env: Env, more: seq<Call>)
    requires Members(voters) <= env.senders && ChainId(h) in env.chains
    requires NoDuplicates(voters) && |voters| >= Quorum(env.threshold)
    ensures StoredMaterial(Run(Camp(voters, h, m, env) + more).storage, h) == Some(m)
  {
    var camp := Camp(voters, h, m, env);
    var log := LogRun(camp).log;
    assert VoteOnce(camp);
    forall other
      ensures |VotesFor(log, h, other)| == if other == m then |voters| else 0
    {
      CountersCountCalls(camp, VoteDigest(h, other));
      CampCount(voters, h, m, env, VoteDigest(h, other));
    }
    LoggedUnder(camp, env.threshold);
    DecidedIffQuorum(log, env.threshold, h);
    assert |VotesFor(log, h, m)| == |voters|;
    assert Decided(log, h) == Some(m);
    GrowingRuns(camp, more, h);
    StoredIsDecided(camp + more, h);
  }

  lemma {:induction false} ListOf(s: set<Address>) returns (l: seq<Address>)
    ensures NoDuplicates(l) && Members(l) == s && |l| == |s|
  {
    if s == {} {
      l := [];
    } else {
      var a :| a in s;
      var rest := ListOf(s - {a});
      assert a !in Members(rest);
      l := rest + [a];
      assert Members(l) == Members(rest) + {a};
    }
  }

  lemma DistinctSendersVoteOnce(calls: seq<Call>, senders: seq<Address>)
    requires |calls| == |senders| && NoDuplicates(senders)
    requires forall i :: 0 <= i < |calls| ==> calls[i].vote.sender == senders[i]
    ensures VoteOnce(calls)
  {
  }

  lemma CampsVoteOnce(voters: seq<Address>, q: nat, h: Word, m1: Material, m2: Material, env: Env)
    requires NoDuplicates(voters) && q <= |voters|
    ensures
      var a, b := Camp(voters[..q], h, m1, env), Camp(voters[q..], h, m2, env);
      Reordered(a + b, b + a) && Under(a + b, env) && Under(b + a, env)
  {
    var a, b := Camp(voters[..q], h, m1, env), Camp(voters[q..], h, m2, env);
    DistinctSendersVoteOnce(a + b, voters);
    DistinctSendersVoteOnce(b + a, voters[q..] + voters[..q]);
    assert multiset(a + b) == multiset(a) + multiset(b) == multiset(b + a);
  }

  lemma TwoCampsDisagree(env: Env, h: Word, all: seq<Address>) returns (x: seq<Call>, y: seq<Call>)
    requires 2 * Quorum(env.threshold) <= |all| && ChainId(h) in env.chains
    requires NoDuplicates(all) && Members(all) == env.senders
    ensures Under(x, env) && Under(y, env) && Reordered(x, y)
    ensures !SameDecisions(x, y)
  {
    var q := Quorum(env.threshold);
    var m1, m2 := Material(0, 0, 0), Material(1, 0, 0);
    var a, b := Camp(all[..q], h, m1, env), Camp(all[q..], h, m2, env);
    assert Members(all[..q]) <= Members(all) && Members(all[q..]) <= Members(all);
    FirstCampDecides(all[..q], h, m1, env, b);
    FirstCampDecides(all[q..], h, m2, env, a);
    CampsVoteOnce(all, q, h, m1, m2, env);
    x, y := a + b, b + a;
  }

  lemma MinorityDependsOnOrder(env: Env)
    requires 2 * Quorum(env.threshold) <= |env.senders| && AcceptsSomeHandle(env)
    ensures !OrderIndependent(env)
  {
    var h: Word :| ChainId(h) in env.chains;
    var all := ListOf(env.senders);
    var x, y := TwoCampsDisagree(env, h, all);
  }

  /**
   With fixed senders and a fixed threshold, and no sender submitting two votes for one handle, any two
   runs over the same calls decide every handle alike if and only if the threshold is a majority (or no
   handle can be voted on at all). GatewayConfig accepts every threshold from 1 to the number of
   coprocessors, so this is not guaranteed by the contracts. OrderNeverMattersIff drops the premise of
   one vote per sender and handle.
   */
  lemma ConfluentIffMajority(env: Env)
    ensures OrderIndependent(env) <==> 2 * Quorum(env.threshold) > |env.senders| || !AcceptsSomeHandle(env)
  {
    if 2 * Quorum(env.threshold) > |env.senders| || !AcceptsSomeHandle(env) {
      MajorityIsOrderIndependent(env);
    } else {
      MinorityDependsOnOrder(env);
    }
  }

  // ---------------------------------------------------------------------------------------------
  // Whether a decision is possible at all
  // ---------------------------------------------------------------------------------------------

  ghost predicate CanDecide(env: Env, h: Word) {
    exists calls :: Under(calls, env) && Run(calls).storage.Added(h)
  }

  /** A handle can be decided iff its chain is registered and a quorum of distinct senders exists. */
  lemma CanDecideIffQuorumExists(env: Env, h: Word)
    ensures CanDecide(env, h) <==> ChainId(h) in env.chains && |env.senders| >= Quorum(env.threshold)
  {
    if CanDecide(env, h) {
      var calls :| Under(calls, env) && Run(calls).storage.Added(h);
      var log := LogRun(calls).log;
      StoredIsDecided(calls, h);
      LoggedUnder(calls, env.threshold);
      DecidedIffQuorum(log, env.threshold, h);
      var m := Decided(log, h).value;
      VotersAreRegistered(calls, env, h, m);
      LogRunIsLegal(calls);
      SendersAreDistinct(log, VoteDigest(h, m));
      DistinctHasSetSize(VotesFor(log, h, m));
      SubsetIsSmaller(Members(VotesFor(log, h, m)), env.senders);
    }
    if ChainId(h) in env.chains && |env.senders| >= Quorum(env.threshold) {
      var voters := ListOf(env.senders);
      var m := Material(0, 0, 0);
      FirstCampDecides(voters, h, m, env, []);
      var calls := Camp(voters, h, m, env) + [];
      assert Under(calls, env);
      assert StoredMaterial(Run(calls).storage, h).Some?;
    }
  }

  // ---------------------------------------------------------------------------------------------
  // Senders that submit two materials for one handle
  // ---------------------------------------------------------------------------------------------

  /** The order of the calls never matters, even if senders call again for a handle they have voted on. */
  ghost predicate OrderNeverMatters(env: Env) {
    forall a, b :: Under(a, env) && Under(b, env) && multiset(a) == multiset(b) ==> SameDecisions(a, b)
  }

  predicate SomeHandleIsDecidable(env: Env) {
    Quorum(env.threshold) <= |env.senders| && AcceptsSomeHandle(env)
  }

  lemma NothingIsDecided(env: Env, calls: seq<Call>, h: Word)
    requires Under(calls, env) && !SomeHandleIsDecidable(env)
    ensures StoredMaterial(Run(calls).storage, h) == None
  {
    CanDecideIffQuorumExists(env, h);
    if Run(calls).storage.Added(h) {
      assert CanDecide(env, h);
    }
  }

  /** All senders submit both materials; only the first call of each counts, so the first material wins. */
  lemma SecondThoughtsDisagree(env: Env, h: Word, all: seq<Address>) returns (x: seq<Call>, y: seq<Call>)
    requires Quorum(env.threshold) <= |all| && ChainId(h) in env.chains
    requires NoDuplicates(all) && Members(all) == env.senders
    ensures Under(x, env) && Under(y, env) && multiset(x) == multiset(y)
    ensures !SameDecisions(x, y)
  {
    hide Run, StoredMaterial, Quorum, ChainId;
    var m1, m2 := Material(0, 0, 0), Material(1, 0, 0);
    var a, b := Camp(all, h, m1, env), Camp(all, h, m2, env);
    FirstCampDecides(all, h, m1, env, b);
    FirstCampDecides(all, h, m2, env, a);
    x, y := a + b, b + a;
  }

  /**
   Without the premise of one vote per sender and handle, no threshold makes the order irrelevant: it is
   irrelevant only where no handle can be decided at all.
   */
  lemma OrderNeverMattersIff(env: Env)
    ensures OrderNeverMatters(env) <==> !SomeHandleIsDecidable(env)
  {
    if SomeHandleIsDecidable(env) {
      var h: Word :| ChainId(h) in env.chains;
      var all := ListOf(env.senders);
      var x, y := SecondThoughtsDisagree(env, h, all);
    } else {
      forall a, b, h | Under(a, env) && Under(b, env)
        ensures StoredMaterial(Run(a).storage, h) == StoredMaterial(Run(b).storage, h)
      {
        NothingIsDecided(env, a, h);
        NothingIsDecided(env, b, h);
      }
    }
  }

  /** Two of three senders decide: a majority, so single votes commute, and yet second calls do not. */
  lemma MajorityWithSecondThoughts(h: Word)
    ensures
      var env := Env({1, 2, 3}, {ChainId(h)}, 2);
      OrderIndependent(env) && !OrderNeverMatters(env)
  {
    var env := Env({1, 2, 3}, {ChainId(h)}, 2);
    ConfluentIffMajority(env);
    OrderNeverMattersIff(env);
    assert ChainId(h) in env.chains;
  }
}
