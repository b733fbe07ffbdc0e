/**
 What honest coprocessors guarantee. The honest senders vote for nothing but the one true material of a
 handle; the others call anything, in any order and as often as they like. Exactly when is the stored
 result the true one: under one registry and threshold, and when they change between the votes?
 */
module Validity {
  import opened Lists
  import opened Words
  import opened Wrappers
  import opened Votes
  import opened CommitsStorage
  import opened Consensus
  import opened Confluence

  /** No honest sender votes for anything but `m` when he votes for `h`. */
  predicate HonestVoteFor(calls: seq<Call>, honest: set<Address>, h: Word, m: Material) {
    forall c :: c in calls && c.vote.handle == h && c.vote.sender in honest ==> c.vote.material == m
  }

  predicate AllHonestCalled(calls: seq<Call>, env: Env, honest: set<Address>, h: Word, m: Material) {
    forall a :: a in honest ==> Call(Vote(h, m, a), env) in calls
  }

  /** Nothing but the honest material is ever stored. */
  ghost predicate OnlyValid(env: Env, honest: set<Address>, h: Word) {
    forall calls, m :: Under(calls, env) && HonestVoteFor(calls, honest, h, m) ==>
      StoredMaterial(Run(calls).storage, h) == None || StoredMaterial(Run(calls).storage, h) == Some(m)
  }

  /** Once all honest senders have called, the honest material is stored. */
  ghost predicate AlwaysDelivered(env: Env, honest: set<Address>, h: Word) {
    forall calls, m ::
      Under(calls, env) && HonestVoteFor(calls, honest, h, m) && AllHonestCalled(calls, env, honest, h, m) ==>
        StoredMaterial(Run(calls).storage, h) == Some(m)
  }

  // ---------------------------------------------------------------------------------------------
  // Who votes for what
  // ---------------------------------------------------------------------------------------------

  /** Votes for another material come from the other senders. */
  lemma {:induction false} OthersVoteOtherwise(
    calls: seq<Call>, env: Env, honest: set<Address>, h: Word, m: Material, other: Material)
    requires Under(calls, env) && HonestVoteFor(calls, honest, h, m) && other != m
    ensures Members(VotesFor(LogRun(calls).log, h, other)) <= env.senders - honest
  {
    var log, d := LogRun(calls).log, VoteDigest(h, other);
    VotersAreRegistered(calls, env, h, other);
    forall a | a in VotesFor(log, h, other)
      ensures a !in honest
    {
      SendersAreVoters(log, d, a);
      var i :| 0 <= i < |log| && EntryDigest(log[i]) == d && log[i].vote.sender == a;
      var j := LoggedFromCall(calls, i);
      assert calls[j] in calls;
    }
  }

  /** The votes for a material come from distinct senders, so a quorum of votes needs a quorum of senders. */
  lemma {:induction false} QuorumNeedsSenders(calls: seq<Call>, env: Env, h: Word, m: Material, voters: set<Address>)
    requires Under(calls, env) && StoredMaterial(Run(calls).storage, h) == Some(m)
    requires Members(VotesFor(LogRun(calls).log, h, m)) <= voters
    ensures |voters| >= Quorum(env.threshold) && ChainId(h) in env.chains
  {
    var log := LogRun(calls).log;
    StoredIsDecided(calls, h);
    LoggedUnder(calls, env.threshold);
    DecidedIffQuorum(log, env.threshold, h);
    VotersAreRegistered(calls, env, h, m);
    LogRunIsLegal(calls);
    SendersAreDistinct(log, VoteDigest(h, m));
    DistinctHasSetSize(VotesFor(log, h, m));
    SubsetIsSmaller(Members(VotesFor(log, h, m)), voters);
  }

  /** A call that passes the registry checks leaves its sender with a vote for the handle, an earlier one or its own. */
  lemma {:induction false} CallerHasVoted(calls: seq<Call>, env: Env, v: Vote)
    requires Under(calls, env) && Call(v, env) in calls
    requires v.sender in env.senders && ChainId(v.handle) in env.chains
    ensures HasVoted(LogRun(calls).log, v.handle, v.sender)
  {
    var init, last := calls[..|calls| - 1], calls[|calls| - 1];
    var before, after := LogRun(init).log, LogRun(calls).log;
    if Call(v, env) in init {
      CallerHasVoted(init, env, v);
    }
    if HasVoted(before, v.handle, v.sender) {
      LogRunGrowsByOne(calls);
      var i :| 0 <= i < |before| && before[i].vote.handle == v.handle && before[i].vote.sender == v.sender;
      assert after[i] == before[i];
    } else {
      assert last == Call(v, env);
      assert after[|before|] == Entry(v, env.threshold);
    }
  }

  /** An honest sender who has called has his vote counted for the honest material. */
  lemma {:induction false} HonestVotesCount(calls: seq<Call>, env: Env, honest: set<Address>, h: Word, m: Material)
    requires Under(calls, env) && HonestVoteFor(calls, honest, h, m) && AllHonestCalled(calls, env, honest, h, m)
    requires ChainId(h) in env.chains
    ensures honest * env.senders <= Members(VotesFor(LogRun(calls).log, h, m))
  {
    var log, d := LogRun(calls).log, VoteDigest(h, m);
    forall a | a in honest * env.senders
      ensures a in VotesFor(log, h, m)
    {
      CallerHasVoted(calls, env, Vote(h, m, a));
      var i :| 0 <= i < |log| && log[i].vote.handle == h && log[i].vote.sender == a;
      var j := LoggedFromCall(calls, i);
      assert calls[j] in calls;
      assert EntryDigest(log[i]) == d;
      SendersAreVoters(log, d, a);
    }
  }

  // ---------------------------------------------------------------------------------------------
  // Safety
  // ---------------------------------------------------------------------------------------------

  lemma FewOthersAreHarmless(env: Env, honest: set<Address>, h: Word)
    requires |env.senders - honest| < Quorum(env.threshold) || ChainId(h) !in env.chains
    ensures OnlyValid(env, honest, h)
  {
    forall calls, m | Under(calls, env) && HonestVoteFor(calls, honest, h, m)
      ensures StoredMaterial(Run(calls).storage, h) == None || StoredMaterial(Run(calls).storage, h) == Some(m)
    {
      var stored := StoredMaterial(Run(calls).storage, h);
      if stored.Some? && stored != Some(m) {
        OthersVoteOtherwise(calls, env, honest, h, m, stored.value);
        QuorumNeedsSenders(calls, env, h, stored.value, env.senders - honest);
      }
    }
  }

  /** A quorum of others stores its own material before any honest sender has called. */
  lemma {:induction false} QuorumOfOthersWins(env: Env, honest: set<Address>, h: Word, m: Material, more: seq<Call>)
    returns (calls: seq<Call>)
    requires |env.senders - honest| >= Quorum(env.threshold) && ChainId(h) in env.chains
    requires Under(more, env) && HonestVoteFor(more, honest, h, m)
    ensures Under(calls, env) && HonestVoteFor(calls, honest, h, m) && forall c :: c in more ==> c in calls
    ensures StoredMaterial(Run(calls).storage, h).Some? && StoredMaterial(Run(calls).storage, h) != Some(m)
  {
    var others := ListOf(env.senders - honest);
    var wrong := if m.keyId == 0 then Material(1, 0, 0) else Material(0, 0, 0);
    var camp := Camp(others, h, wrong, env);
    FirstCampDecides(others, h, wrong, env, more);
    calls := camp + more;
    forall c | c in camp
      ensures c.env == env && c.vote.sender !in honest
    {
      var i :| 0 <= i < |camp| && camp[i] == c;
      assert others[i] in Members(others);
    }
  }

  /** Only valid results are stored if and only if the senders that are not honest are fewer than a quorum. */
  lemma OnlyValidIff(env: Env, honest: set<Address>, h: Word)
    ensures OnlyValid(env, honest, h)
      <==> |env.senders - honest| < Quorum(env.threshold) || ChainId(h) !in env.chains
  {
    if |env.senders - honest| < Quorum(env.threshold) || ChainId(h) !in env.chains {
      FewOthersAreHarmless(env, honest, h);
    } else {
      var calls := QuorumOfOthersWins(env, honest, h, Material(0, 0, 0), []);
    }
  }

  // ---------------------------------------------------------------------------------------------
  // The documented assumption: more than half of the senders are honest
  // ---------------------------------------------------------------------------------------------

  /** Results are valid as long as more than half of the senders are honest, whoever they are. */
  ghost predicate HonestMajorityIsEnough(env: Env, h: Word) {
    forall honest: set<Address> :: honest <= env.senders && 2 * |honest| > |env.senders| ==> OnlyValid(env, honest, h)
  }

  /** The documented promise holds if and only if the threshold is at least half the number of senders. */
  lemma HonestMajorityIsEnoughIff(env: Env, h: Word)
    ensures HonestMajorityIsEnough(env, h) <==> 2 * Quorum(env.threshold) >= |env.senders| || ChainId(h) !in env.chains
  {
    var n, q := |env.senders|, Quorum(env.threshold);
    if 2 * q >= n || ChainId(h) !in env.chains {
      forall honest: set<Address> | honest <= env.senders && 2 * |honest| > n
        ensures OnlyValid(env, honest, h)
      {
        assert |env.senders - honest| == n - |honest|;
        OnlyValidIff(env, honest, h);
      }
    } else {
      var honest := MajorityWithoutQuorum(env);
      OnlyValidIff(env, honest, h);
    }
  }

  /** Where two quorums and more exist, one quorum can be dishonest and the honest still be a majority. */
  lemma MajorityWithoutQuorum(env: Env) returns (honest: set<Address>)
    requires 2 * Quorum(env.threshold) < |env.senders|
    ensures honest <= env.senders && 2 * |honest| > |env.senders|
    ensures |env.senders - honest| == Quorum(env.threshold)
  {
    var q := Quorum(env.threshold);
    var all := ListOf(env.senders);
    var others := Members(all[..q]);
    DistinctHasSetSize(all[..q]);
    assert others <= Members(all);
    honest := env.senders - others;
    assert env.senders - honest == others;
  }

  // ---------------------------------------------------------------------------------------------
  // Safety and liveness
  // ---------------------------------------------------------------------------------------------

  lemma HonestQuorumDelivers(env: Env, honest: set<Address>, h: Word)
    requires ChainId(h) in env.chains
    requires |env.senders - honest| < Quorum(env.threshold) <= |honest * env.senders|
    ensures AlwaysDelivered(env, honest, h)
  {
    FewOthersAreHarmless(env, honest, h);
    forall calls, m |
      Under(calls, env) && HonestVoteFor(calls, honest, h, m) && AllHonestCalled(calls, env, honest, h, m)
      ensures StoredMaterial(Run(calls).storage, h) == Some(m)
    {
      var log := LogRun(calls).log;
      HonestVotesCount(calls, env, honest, h, m);
      LogRunIsLegal(calls);
      SendersAreDistinct(log, VoteDigest(h, m));
      DistinctHasSetSize(VotesFor(log, h, m));
      SubsetIsSmaller(honest * env.senders, Members(VotesFor(log, h, m)));
      LoggedUnder(calls, env.threshold);
      DecidedIffQuorum(log, env.threshold, h);
      StoredIsDecided(calls, h);
    }
  }

  /** If the others stay silent, only the honest have voted. */
  lemma SilenceBlocks(env: Env, honest: set<Address>, h: Word)
    requires |honest * env.senders| < Quorum(env.threshold) || ChainId(h) !in env.chains
    ensures !AlwaysDelivered(env, honest, h)
  {
    var m := Material(0, 0, 0);
    var voters := ListOf(honest);
    var calls := Camp(voters, h, m, env);
    forall a | a in honest
      ensures Call(Vote(h, m, a), env) in calls
    {
      assert a in Members(voters);
      var i :| 0 <= i < |voters| && voters[i] == a;
      assert calls[i] == Call(Vote(h, m, a), env);
    }
    if StoredMaterial(Run(calls).storage, h) == Some(m) {
      var log, d := LogRun(calls).log, VoteDigest(h, m);
      forall a | a in VotesFor(log, h, m)
        ensures a in honest
      {
        SendersAreVoters(log, d, a);
        var i :| 0 <= i < |log| && EntryDigest(log[i]) == d && log[i].vote.sender == a;
        var j := LoggedFromCall(calls, i);
        assert voters[j] in Members(voters);
      }
      VotersAreRegistered(calls, env, h, m);
      QuorumNeedsSenders(calls, env, h, m, honest * env.senders);
    }
  }

  /**
   The honest material is stored in every run in which all honest senders have called, whatever the others
   do, if and only if the registered honest senders are a quorum and the others are not.
   */
  lemma AlwaysDeliveredIff(env: Env, honest: set<Address>, h: Word)
    ensures AlwaysDelivered(env, honest, h)
      <==> ChainId(h) in env.chains && |env.senders - honest| < Quorum(env.threshold) <= |honest * env.senders|
  {
    if |honest * env.senders| < Quorum(env.threshold) || ChainId(h) !in env.chains {
      SilenceBlocks(env, honest, h);
    } else if |env.senders - honest| < Quorum(env.threshold) {
      HonestQuorumDelivers(env, honest, h);
    } else {
      var m := Material(0, 0, 0);
      var voters := ListOf(honest);
      var camp := Camp(voters, h, m, env);
      var calls := QuorumOfOthersWins(env, honest, h, m, camp);
      forall a | a in honest
        ensures Call(Vote(h, m, a), env) in calls
      {
        assert a in Members(voters);
        var i :| 0 <= i < |voters| && voters[i] == a;
        assert camp[i] in camp;
      }
    }
  }

  // ---------------------------------------------------------------------------------------------
  // Registries and thresholds that change between the votes
  // ---------------------------------------------------------------------------------------------

  predicate UnderSome(calls: seq<Call>, envs: set<Env>) {
    forall c :: c in calls ==> c.env in envs
  }

  /** Nothing but the honest material is ever stored, whichever of these environments each call meets. */
  ghost predicate OnlyValidAcross(envs: set<Env>, honest: set<Address>, h: Word) {
    forall calls, m :: UnderSome(calls, envs) && HonestVoteFor(calls, honest, h, m) ==>
      StoredMaterial(Run(calls).storage, h) == None || StoredMaterial(Run(calls).storage, h) == Some(m)
  }

  /** The senders that are not honest and may vote for the handle in this environment. */
  function OthersIn(e: Env, honest: set<Address>, h: Word): set<Address> {
    if ChainId(h) in e.chains then e.senders - honest else {}
  }

  /** All of them, over all environments: the votes of a removed sender still count. */
  function AllOthers(envs: set<Env>, honest: set<Address>, h: Word): set<Address> {
    set e, a | e in envs && a in OthersIn(e, honest, h) :: a
  }

  lemma NothingIsLogged()
    ensures LogRun([]).log == []
  {
  }

  /** Votes for another material come from the other senders, under some environment. */
  lemma {:induction false} OthersVoteAcross(
    calls: seq<Call>, envs: set<Env>, honest: set<Address>, h: Word, m: Material, other: Material, n: nat)
    requires UnderSome(calls, envs) && HonestVoteFor(calls, honest, h, m) && other != m
    requires n <= |LogRun(calls).log|
    ensures Members(VotesFor(LogRun(calls).log[..n], h, other)) <= AllOthers(envs, honest, h)
  {
    hide LogRun, SendersOf;
    var log, d := LogRun(calls).log, VoteDigest(h, other);
    NothingIsLogged();
    assert [] + calls == calls;
    forall a | a in VotesFor(log[..n], h, other)
      ensures a in AllOthers(envs, honest, h)
    {
      SendersAreVoters(log[..n], d, a);
      var i :| 0 <= i < n && EntryDigest(log[i]) == d && log[i].vote.sender == a;
      var j := LoggedFrom([], calls, i);
      assert calls[j] in calls;
      assert a in OthersIn(calls[j].env, honest, h);
    }
  }

  /** Some sender here is not honest, and the others of all environments together are a quorum here. */
  predicate IsCritical(e: Env, envs: set<Env>, honest: set<Address>, h: Word) {
    OthersIn(e, honest, h) != {} && |AllOthers(envs, honest, h)| >= Quorum(e.threshold)
  }

  lemma NoCriticalIsSafe(envs: set<Env>, honest: set<Address>, h: Word)
    requires forall e :: e in envs ==> !IsCritical(e, envs, honest, h)
    ensures OnlyValidAcross(envs, honest, h)
  {
    hide IsCritical;
    forall calls, m | UnderSome(calls, envs) && HonestVoteFor(calls, honest, h, m)
      ensures StoredMaterial(Run(calls).storage, h) == None || StoredMaterial(Run(calls).storage, h) == Some(m)
    {
      StoredIsDecided(calls, h);
      var log := LogRun(calls).log;
      if Decided(log, h).Some? && Decided(log, h) != Some(m) {
        var e := CriticalEntry(calls, envs, honest, h, m);
      }
    }
  }

  /** The votes for another material are at most as many as the others. */
  lemma {:induction false} VotesOfOthers(
    calls: seq<Call>, envs: set<Env>, honest: set<Address>, h: Word, m: Material, other: Material, n: nat)
    requires UnderSome(calls, envs) && HonestVoteFor(calls, honest, h, m) && other != m
    requires n <= |LogRun(calls).log|
    ensures |VotesFor(LogRun(calls).log[..n], h, other)| <= |AllOthers(envs, honest, h)|
  {
    hide LogRun, SendersOf, AllOthers, UnderSome, HonestVoteFor;
    var first := LogRun(calls).log[..n];
    OthersVoteAcross(calls, envs, honest, h, m, other, n);
    LogRunIsLegal(calls);
    SendersAreDistinct(first, VoteDigest(h, other));
    DistinctHasSetSize(VotesFor(first, h, other));
    SubsetIsSmaller(Members(VotesFor(first, h, other)), AllOthers(envs, honest, h));
  }

  /** The vote that decides for another material was cast under a critical environment. */
  lemma {:induction false} CriticalEntry(
    calls: seq<Call>, envs: set<Env>, honest: set<Address>, h: Word, m: Material)
    returns (e: Env)
    requires UnderSome(calls, envs) && HonestVoteFor(calls, honest, h, m)
    requires Decided(LogRun(calls).log, h).Some? && Decided(LogRun(calls).log, h) != Some(m)
    ensures e in envs && IsCritical(e, envs, honest, h)
  {
    hide LogRun, SendersOf, AllOthers, Decided;
    var log := LogRun(calls).log;
    var k := DecidingEntry(log, h);
    assert [] + calls == calls;
    NothingIsLogged();
    var j := LoggedFrom([], calls, k);
    assert calls[j] in calls;
    e := calls[j].env;
    assert calls[j].vote.sender in OthersIn(e, honest, h);
    VotesOfOthers(calls, envs, honest, h, m, log[k].vote.material, k + 1);
    OneMoreVote(log, k);
  }

  lemma OneMoreVote(log: Log, k: nat)
    requires k < |log|
    ensures VotesFor(log[..k + 1], log[k].vote.handle, log[k].vote.material) != []
  {
    assert log[..k + 1] == log[..k] + [log[k]];
    LogSnoc(log[..k], log[k], EntryDigest(log[k]));
  }

  /** Each of these senders calls under an environment that registers him. */
  lemma {:induction false} CallsAcross(voters: seq<Address>, envs: set<Env>, honest: set<Address>, h: Word, m: Material)
    returns (calls: seq<Call>)
    requires forall a :: a in voters ==> a in AllOthers(envs, honest, h)
    ensures |calls| == |voters|
    ensures forall i :: 0 <= i < |calls| ==>
      calls[i].vote == Vote(h, m, voters[i]) && calls[i].env in envs && Registered(calls[i])
  {
    if voters == [] {
      calls := [];
    } else {
      var init, a := voters[..|voters| - 1], voters[|voters| - 1];
      assert a in voters;
      calls := CallsAcross(init, envs, honest, h, m);
      var e :| e in envs && a in OthersIn(e, honest, h);
      calls := calls + [Call(Vote(h, m, a), e)];
    }
  }

  /** The others vote one after the other, the last of them under the critical environment. */
  lemma CriticalCalls(e: Env, envs: set<Env>, honest: set<Address>, h: Word, m: Material) returns (calls: seq<Call>)
    requires e in envs && IsCritical(e, envs, honest, h)
    ensures |calls| == |AllOthers(envs, honest, h)| > 0 && calls[|calls| - 1].env == e
    ensures VoteOnce(calls)
    ensures forall i :: 0 <= i < |calls| ==>
      && calls[i].vote.handle == h && calls[i].vote.material == m && calls[i].vote.sender in AllOthers(envs, honest, h)
      && calls[i].env in envs && Registered(calls[i])
  {
    var a :| a in OthersIn(e, honest, h);
    var all := AllOthers(envs, honest, h);
    assert a in all;
    var rest := ListOf(all - {a});
    forall b | b in rest
      ensures b in all && b != a
    {
      assert b in Members(rest);
    }
    calls := CallsAcross(rest, envs, honest, h, m);
    calls := calls + [Call(Vote(h, m, a), e)];
    DistinctSendersVoteOnce(calls, rest + [a]);
  }

  lemma OthersAreNotHonest(envs: set<Env>, honest: set<Address>, h: Word)
    ensures forall a :: a in AllOthers(envs, honest, h) ==> a !in honest
  {
  }

  lemma CriticalIsUnsafe(e: Env, envs: set<Env>, honest: set<Address>, h: Word)
    requires e in envs && IsCritical(e, envs, honest, h)
    ensures !OnlyValidAcross(envs, honest, h)
  {
    hide Run, StoredMaterial, AllOthers, Registered, VoteOnce;
    var m, wrong := Material(0, 0, 0), Material(1, 0, 0);
    var calls := CriticalCalls(e, envs, honest, h, wrong);
    OthersAreNotHonest(envs, honest, h);
    AllVotesDecide(calls, h, wrong);
    assert HonestVoteFor(calls, honest, h, m);
    assert UnderSome(calls, envs);
  }

  /** Votes for one material only decide it as soon as the last of them meets its threshold. */
  lemma {:induction false} AllVotesDecide(calls: seq<Call>, h: Word, m: Material)
    requires calls != [] && VoteOnce(calls) && forall c :: c in calls ==> Registered(c)
    requires forall c :: c in calls ==> c.vote.handle == h && c.vote.material == m
    requires |calls| >= calls[|calls| - 1].env.threshold
    ensures StoredMaterial(Run(calls).storage, h) == Some(m)
  {
    hide *;
    FreshRunIsLogged(calls);
    StoredIsDecided(calls, h);
    AllEntriesDecide(calls, h, m);
  }

  lemma {:induction false} AllEntriesDecide(calls: seq<Call>, h: Word, m: Material)
    requires calls != [] && forall c :: c in calls ==> c.vote.handle == h && c.vote.material == m
    requires |calls| >= calls[|calls| - 1].env.threshold
    ensures Decided(Entries(calls), h) == Some(m)
  {
    hide Decided, SendersOf;
    var log := Entries(calls);
    var init, e := log[..|log| - 1], log[|log| - 1];
    AllForOne(calls, h, m);
    assert log == init + [e] && calls[|calls| - 1] in calls;
    LogSnoc(init, e, VoteDigest(h, m));
    DecidedSnoc(init, e, h);
    if Decided(init, h).Some? {
      var k := DecidingEntry(init, h);
      assert init[k].vote == calls[k].vote && calls[k] in calls;
    }
  }

  /**
   Where registries and thresholds change between the votes, in any order and back again: only valid results are
   stored if and only if no environment that registers a dishonest sender can be outvoted by the dishonest senders
   of all of them together.
   */
  lemma OnlyValidAcrossIff(envs: set<Env>, honest: set<Address>, h: Word)
    ensures OnlyValidAcross(envs, honest, h) <==> forall e :: e in envs ==> !IsCritical(e, envs, honest, h)
  {
    hide OnlyValidAcross, IsCritical;
    if e :| e in envs && IsCritical(e, envs, honest, h) {
      CriticalIsUnsafe(e, envs, honest, h);
    } else {
      NoCriticalIsSafe(envs, honest, h);
    }
  }

  // ---------------------------------------------------------------------------------------------
  // One configuration after the other
  // ---------------------------------------------------------------------------------------------

  function Concat(phases: seq<seq<Call>>): seq<Call> {
    if phases == [] then [] else Concat(phases[..|phases| - 1]) + phases[|phases| - 1]
  }

  /** The calls of each phase meet the environment of that phase. */
  ghost predicate InPhases(phases: seq<seq<Call>>, envs: seq<Env>) {
    |phases| == |envs| && forall i :: 0 <= i < |phases| ==> Under(phases[i], envs[i])
  }

  predicate StoresOnly(calls: seq<Call>, h: Word, m: Material) {
    StoredMaterial(Run(calls).storage, h) == None || StoredMaterial(Run(calls).storage, h) == Some(m)
  }

  /** Nothing but the honest material is ever stored while these environments succeed each other. */
  ghost predicate OnlyValidInSuccession(envs: seq<Env>, honest: set<Address>, h: Word) {
    forall phases, m :: InPhases(phases, envs) && HonestVoteFor(Concat(phases), honest, h, m) ==>
      StoresOnly(Concat(phases), h, m)
  }

  /** Critical when it comes: together with the environments before it. */
  predicate IsCriticalAt(envs: seq<Env>, i: nat, honest: set<Address>, h: Word)
    requires i < |envs|
  {
    IsCritical(envs[i], Members(envs[..i + 1]), honest, h)
  }

  lemma {:induction false} PhasesUnderSome(phases: seq<seq<Call>>, envs: seq<Env>)
    requires InPhases(phases, envs)
    ensures UnderSome(Concat(phases), Members(envs))
  {
    if phases != [] {
      var n := |phases| - 1;
      PhasesUnderSome(phases[..n], envs[..n]);
      forall c | c in Concat(phases)
        ensures c.env in Members(envs)
      {
        if c in phases[n] {
          assert c.env == envs[n];
        } else {
          assert c.env in Members(envs[..n]);
        }
      }
    }
  }

  /** The phase in which another material is decided is critical. */
  lemma {:induction false} WrongPhaseIsCritical(
    init: seq<Call>, last: seq<Call>, e: Env, envs: set<Env>, honest: set<Address>, h: Word, m: Material)
    requires Under(last, e) && UnderSome(init + last, envs) && HonestVoteFor(init + last, honest, h, m)
    requires Decided(LogRun(init).log, h) == None
    requires Decided(LogRun(init + last).log, h).Some? && Decided(LogRun(init + last).log, h) != Some(m)
    ensures IsCritical(e, envs, honest, h)
  {
    hide LogRun, SendersOf, AllOthers, Decided, UnderSome;
    var start, log := LogRun(init).log, LogRun(init + last).log;
    LogOnlyGrows(init, last);
    var k := DecidingEntry(log, h);
    if k < |start| {
      GrowthKeepsDecisions(log[..k + 1], start, h, Zero);
      assert false;
    }
    var j := LoggedFrom(init, last, k);
    assert last[j] in last && last[j] in init + last;
    assert last[j].vote.sender in OthersIn(e, honest, h);
    VotesOfOthers(init + last, envs, honest, h, m, log[k].vote.material, k + 1);
    OneMoreVote(log, k);
  }

  lemma {:induction false} SuccessionIsSafe(
    phases: seq<seq<Call>>, envs: seq<Env>, honest: set<Address>, h: Word, m: Material)
    requires InPhases(phases, envs) && HonestVoteFor(Concat(phases), honest, h, m)
    requires forall i :: 0 <= i < |envs| ==> !IsCriticalAt(envs, i, honest, h)
    ensures Decided(LogRun(Concat(phases)).log, h) == None || Decided(LogRun(Concat(phases)).log, h) == Some(m)
  {
    hide LogRun, Decided, IsCritical;
    if phases == [] {
      NothingIsDecidedYet(h);
    } else {
      var n := |phases| - 1;
      var init, last := Concat(phases[..n]), phases[n];
      forall i | 0 <= i < n
        ensures !IsCriticalAt(envs[..n], i, honest, h)
      {
        assert envs[..n][..i + 1] == envs[..i + 1];
        assert !IsCriticalAt(envs, i, honest, h);
      }
      SuccessionIsSafe(phases[..n], envs[..n], honest, h, m);
      LogOnlyGrows(init, last);
      GrowthKeepsDecisions(LogRun(init).log, LogRun(init + last).log, h, Zero);
      PhasesUnderSome(phases, envs);
      assert envs[..n + 1] == envs;
      assert !IsCriticalAt(envs, n, honest, h);
      if Decided(LogRun(init).log, h) == None && Decided(LogRun(init + last).log, h) !in [None, Some(m)] {
        WrongPhaseIsCritical(init, last, envs[n], Members(envs), honest, h, m);
      }
    }
  }

  lemma NothingIsDecidedYet(h: Word)
    ensures Decided(LogRun(Concat([])).log, h) == None
  {
  }

  /** All calls are for one material, by distinct senders that are registered when they call. */
  ghost predicate AllVoteFor(calls: seq<Call>, voters: set<Address>, h: Word, m: Material) {
    && |calls| == |voters|
    && (forall c :: c in calls ==>
          Registered(c) && c.vote.handle == h && c.vote.material == m && c.vote.sender in voters)
    && forall i, j :: 0 <= i < j < |calls| ==> calls[i].vote.sender != calls[j].vote.sender
  }

  /** In each phase those vote who are registered for the first time, except one. */
  lemma {:induction false} OthersVoteInTime(
    envs: seq<Env>, honest: set<Address>, h: Word, m: Material, a: Address)
    returns (phases: seq<seq<Call>>)
    ensures InPhases(phases, envs)
    ensures AllVoteFor(Concat(phases), AllOthers(Members(envs), honest, h) - {a}, h, m)
  {
    if envs == [] {
      phases := [];
      assert AllOthers(Members(envs), honest, h) == {};
    } else {
      hide AllOthers, AllVoteFor, OthersIn, Registered;
      var n := |envs| - 1;
      phases := OthersVoteInTime(envs[..n], honest, h, m, a);
      var before, now := AllOthers(Members(envs[..n]), honest, h) - {a}, AllOthers(Members(envs), honest, h) - {a};
      OthersGrow(envs, n, honest, h);
      var news := ListOf(now - before);
      var camp := Camp(news, h, m, envs[n]);
      CampAdds(Concat(phases), before, now, news, h, m, envs[n], honest);
      AddPhase(phases, camp, envs);
      phases := phases + [camp];
    }
  }

  lemma {:induction false} AddPhase(phases: seq<seq<Call>>, last: seq<Call>, envs: seq<Env>)
    requires envs != [] && InPhases(phases, envs[..|envs| - 1]) && Under(last, envs[|envs| - 1])
    ensures InPhases(phases + [last], envs) && Concat(phases + [last]) == Concat(phases) + last
  {
    assert (phases + [last])[..|phases|] == phases;
  }

  lemma {:induction false} OthersGrow(envs: seq<Env>, n: nat, honest: set<Address>, h: Word)
    requires n + 1 == |envs|
    ensures AllOthers(Members(envs), honest, h) ==
      AllOthers(Members(envs[..n]), honest, h) + OthersIn(envs[n], honest, h)
  {
    assert envs == envs[..n] + [envs[n]];
  }

  lemma {:induction false} CampAdds(
    calls: seq<Call>, before: set<Address>, now: set<Address>, news: seq<Address>, h: Word, m: Material, e: Env,
    honest: set<Address>)
    requires AllVoteFor(calls, before, h, m) && before <= now && NoDuplicates(news)
    requires Members(news) == now - before && |news| == |now - before|
    requires now - before <= OthersIn(e, honest, h)
    ensures AllVoteFor(calls + Camp(news, h, m, e), now, h, m)
  {
    var camp := Camp(news, h, m, e);
    assert |now| == |before| + |now - before| by {
      assert now == before + (now - before);
    }
    forall i | 0 <= i < |news|
      ensures news[i] in now - before
    {
      assert news[i] in Members(news);
    }
    forall c | c in calls + camp
      ensures Registered(c) && c.vote.handle == h && c.vote.material == m && c.vote.sender in now
    {
    }
    forall i, j | 0 <= i < j < |calls + camp|
      ensures (calls + camp)[i].vote.sender != (calls + camp)[j].vote.sender
    {
      if i < |calls| && j >= |calls| {
        assert calls[i] in calls;
      }
    }
  }

  /** Phases in which nobody calls. */
  lemma {:induction false} SilentPhases(phases: seq<seq<Call>>, envs: seq<Env>, i: nat) returns (all: seq<seq<Call>>)
    requires i <= |envs| && InPhases(phases, envs[..i])
    ensures InPhases(all, envs) && Concat(all) == Concat(phases)
    decreases |envs| - i
  {
    if i == |envs| {
      assert envs[..i] == envs;
      all := phases;
    } else {
      var more := phases + [[]];
      assert envs[..i + 1] == envs[..i] + [envs[i]];
      assert more[..|more| - 1] == phases;
      assert Concat(more) == Concat(phases) + [];
      all := SilentPhases(more, envs, i + 1);
    }
  }

  lemma {:induction false} CriticalSuccessionIsUnsafe(envs: seq<Env>, i: nat, honest: set<Address>, h: Word)
    requires i < |envs| && IsCriticalAt(envs, i, honest, h)
    ensures !OnlyValidInSuccession(envs, honest, h)
  {
    hide Run, StoredMaterial, AllOthers, Registered, AllVoteFor, OthersIn;
    var m, wrong, e := Material(0, 0, 0), Material(1, 0, 0), envs[i];
    var a :| a in OthersIn(e, honest, h);
    var sofar := envs[..i + 1];
    var phases := OthersVoteInTime(sofar, honest, h, wrong, a);
    var last, calls := Call(Vote(h, wrong, a), e), Concat(phases);
    assert sofar[i] == e;
    LastVoteCompletes(sofar, honest, h, wrong, a, calls, e);
    var ended := ExtendLast(phases, sofar, last);
    var all := SilentPhases(ended, envs, i + 1);
    assert HonestVoteFor(Concat(all), honest, h, m);
    assert InPhases(all, envs) && !StoresOnly(Concat(all), h, m);
  }

  lemma {:induction false} ExtendLast(phases: seq<seq<Call>>, envs: seq<Env>, c: Call) returns (ended: seq<seq<Call>>)
    requires envs != [] && InPhases(phases, envs) && c.env == envs[|envs| - 1]
    ensures InPhases(ended, envs) && Concat(ended) == Concat(phases) + [c]
  {
    var n := |phases| - 1;
    AddPhase(phases[..n], phases[n] + [c], envs);
    ended := phases[..n] + [phases[n] + [c]];
    assert Concat(phases[..n]) + (phases[n] + [c]) == (Concat(phases[..n]) + phases[n]) + [c];
  }

  lemma {:induction false} LastVoteCompletes(
    envs: seq<Env>, honest: set<Address>, h: Word, wrong: Material, a: Address, calls: seq<Call>, e: Env)
    requires a in OthersIn(e, honest, h) && e in envs
    requires AllVoteFor(calls, AllOthers(Members(envs), honest, h) - {a}, h, wrong)
    requires |AllOthers(Members(envs), honest, h)| >= Quorum(e.threshold)
    ensures StoredMaterial(Run(calls + [Call(Vote(h, wrong, a), e)]).storage, h) == Some(wrong)
    ensures forall c :: c in calls + [Call(Vote(h, wrong, a), e)] ==> c.vote.sender !in honest
  {
    hide Run, StoredMaterial;
    var all := calls + [Call(Vote(h, wrong, a), e)];
    OthersAreNotHonest(Members(envs), honest, h);
    assert e in Members(envs) && a in AllOthers(Members(envs), honest, h);
    assert |all| == |AllOthers(Members(envs), honest, h)|;
    forall i, j | 0 <= i < j < |all|
      ensures all[i].vote.sender != all[j].vote.sender
    {
      assert all[i] in calls;
    }
    assert VoteOnce(all);
    AllVotesDecide(all, h, wrong);
  }

  /**
   While these environments succeed each other, only valid results are stored if and only if none of them that
   registers a dishonest sender can be outvoted by the dishonest senders of it and all before it.
   */
  lemma OnlyValidInSuccessionIff(envs: seq<Env>, honest: set<Address>, h: Word)
    ensures OnlyValidInSuccession(envs, honest, h)
      <==> forall i :: 0 <= i < |envs| ==> !IsCriticalAt(envs, i, honest, h)
  {
    hide IsCriticalAt, Run, StoredMaterial, Decided, LogRun;
    if i :| 0 <= i < |envs| && IsCriticalAt(envs, i, honest, h) {
      CriticalSuccessionIsUnsafe(envs, i, honest, h);
    } else {
      forall phases, m | InPhases(phases, envs) && HonestVoteFor(Concat(phases), honest, h, m)
        ensures StoresOnly(Concat(phases), h, m)
      {
        SuccessionIsSafe(phases, envs, honest, h, m);
        StoredIsDecided(Concat(phases), h);
      }
    }
  }

  lemma {:induction false} TwoInSuccession(a: Env, b: Env, honest: set<Address>, h: Word)
    ensures OnlyValidInSuccession([a, b], honest, h)
      <==> !IsCritical(a, {a}, honest, h) && !IsCritical(b, {a, b}, honest, h)
  {
    hide IsCritical, OnlyValidInSuccession;
    var envs := [a, b];
    OnlyValidInSuccessionIff(envs, honest, h);
    assert envs[..1] == [a] && envs[..2] == [a, b];
    assert Members([a]) == {a} && Members([a, b]) == {a, b} by {
      assert forall e :: e in [a, b] <==> e in {a, b};
    }
    assert IsCriticalAt(envs, 0, honest, h) == IsCritical(a, {a}, honest, h);
    assert IsCriticalAt(envs, 1, honest, h) == IsCritical(b, {a, b}, honest, h);
  }

  function Replaced(h: Word, threshold: nat): (Env, Env) {
    (Env({1, 2, 3}, {ChainId(h)}, 2), Env({4, 5, 6}, {ChainId(h)}, threshold))
  }

  lemma {:induction false} OthersReplaced(h: Word, threshold: nat)
    ensures
      var (before, after) := Replaced(h, threshold);
      && before.senders - {2, 3, 5, 6} == {1} && after.senders - {2, 3, 5, 6} == {4}
      && AllOthers({before}, {2, 3, 5, 6}, h) == {1} && AllOthers({before, after}, {2, 3, 5, 6}, h) == {1, 4}
  {
    var (before, after) := Replaced(h, threshold);
    var honest: set<Address> := {2, 3, 5, 6};
    assert OthersIn(before, honest, h) == {1} && OthersIn(after, honest, h) == {4};
  }

  /**
   One of three senders is dishonest, before and after all three are replaced. Two votes decide, so each registry
   alone stores valid results only, and the two in succession do not.
   */
  lemma ReplacingSendersIsUnsafe(h: Word)
    ensures
      var (before, after) := Replaced(h, 2);
      var honest := {2, 3, 5, 6};
      && OnlyValid(before, honest, h) && OnlyValid(after, honest, h)
      && !OnlyValidInSuccession([before, after], honest, h)
  {
    hide AllOthers, OnlyValid, OnlyValidInSuccession;
    var (before, after) := Replaced(h, 2);
    var honest: set<Address> := {2, 3, 5, 6};
    OthersReplaced(h, 2);
    OnlyValidIff(before, honest, h);
    OnlyValidIff(after, honest, h);
    TwoInSuccession(before, after, honest, h);
  }

  /** With threshold three afterwards the succession is safe, but not if the first registry could come back. */
  lemma OrderOfRegistriesMatters(h: Word)
    ensures
      var (before, after) := Replaced(h, 3);
      var honest := {2, 3, 5, 6};
      OnlyValidInSuccession([before, after], honest, h) && !OnlyValidAcross({before, after}, honest, h)
  {
    hide AllOthers, OnlyValidAcross, OnlyValidInSuccession;
    var (before, after) := Replaced(h, 3);
    var honest: set<Address> := {2, 3, 5, 6};
    OthersReplaced(h, 3);
    TwoInSuccession(before, after, honest, h);
    OnlyValidAcrossIff({before, after}, honest, h);
    assert IsCritical(before, {before, after}, honest, h);
  }
}
