/**
 Whether an undecided handle can still be decided. Senders may have split their votes so that no material
 can reach the threshold any more; votes cannot be taken back.
 */
module Deadlock {
  import opened Lists
  import opened Words
  import opened Wrappers
  import opened Votes
  import opened CommitsStorage
  import opened Consensus
  import opened Confluence

  /** The registered senders that have not voted for the handle yet. */
  function Unvoted(s: Storage, env: Env, h: Word): set<Address> {
    set a | a in env.senders && !s.AlreadyAdded(h, a)
  }

  ghost predicate CanStillDecide(calls: seq<Call>, env: Env, h: Word) {
    exists more :: Under(more, env) && Run(calls + more).storage.Added(h)
  }

  /** Some material would reach the threshold with all the votes that are left, and there is one left. */
  ghost predicate EnoughVotesLeft(s: Storage, env: Env, h: Word) {
    && Unvoted(s, env, h) != {}
    && exists m :: s.Counter(VoteDigest(h, m)) + |Unvoted(s, env, h)| >= env.threshold
  }

  lemma {:induction false} FlaggedIffVoted(calls: seq<Call>, h: Word, a: Address)
    ensures Run(calls).storage.AlreadyAdded(h, a) == HasVoted(LogRun(calls).log, h, a)
  {
    hide SendersOf, Decided, HasVoted, Run, LogRun;
    RunRefinesLog(calls);
  }

  lemma VotedStaysVoted(log: Log, longer: Log, h: Word, a: Address)
    requires log <= longer && HasVoted(log, h, a)
    ensures HasVoted(longer, h, a)
  {
    var i :| 0 <= i < |log| && log[i].vote.handle == h && log[i].vote.sender == a;
    assert longer[i] == log[i];
  }

  /** The call that decides the handle. */
  lemma {:induction false} DecidingCall(calls: seq<Call>, more: seq<Call>, h: Word) returns (n: nat)
    requires Decided(LogRun(calls).log, h) == None && Decided(LogRun(calls + more).log, h).Some?
    ensures n < |more|
    ensures Decided(LogRun(calls + more[..n]).log, h) == None
    ensures Decided(LogRun(calls + more[..n + 1]).log, h).Some?
  {
    assert calls + [] == calls;
    var init := more[..|more| - 1];
    if Decided(LogRun(calls + init).log, h).Some? {
      n := DecidingCall(calls, init, h);
      assert init[..n] == more[..n] && init[..n + 1] == more[..n + 1];
    } else {
      n := |more| - 1;
      assert more[..n + 1] == more;
    }
  }

  /** The vote it logs: the first of its sender for the handle, and it meets the threshold. */
  lemma DecidingLogStep(log: Log, c: Call, h: Word)
    requires Decided(log, h) == None && Decided(LogStep(log, c).0, h).Some?
    ensures Registered(c) && c.vote.handle == h && !HasVoted(log, h, c.vote.sender)
    ensures LogStep(log, c).0 == log + [Entry(c.vote, c.env.threshold)]
    ensures |VotesFor(LogStep(log, c).0, h, c.vote.material)| >= c.env.threshold
  {
    hide SendersOf, HasVoted;
    if LogStep(log, c).0 != log {
      DecidedSnoc(log, Entry(c.vote, c.env.threshold), h);
      LogSnoc(log, Entry(c.vote, c.env.threshold), VoteDigest(h, c.vote.material));
    }
  }

  /** All votes after the first calls come from senders that had not voted then. */
  lemma {:induction false} LaterVotersWereUnvoted(calls: seq<Call>, more: seq<Call>, env: Env, h: Word, m: Material)
    requires Under(more, env)
    ensures |VotesFor(LogRun(calls + more).log, h, m)| <=
      |VotesFor(LogRun(calls).log, h, m)| + |Unvoted(Run(calls).storage, env, h)|
  {
    var log, longer, d := LogRun(calls).log, LogRun(calls + more).log, VoteDigest(h, m);
    LogOnlyGrows(calls, more);
    var rest := longer[|log|..];
    assert longer == log + rest;
    SendersConcat(log, rest, d);
    LogRunIsLegal(calls + more);
    SendersAreDistinct(rest, d);
    DistinctHasSetSize(SendersOf(rest, d));
    forall a | a in SendersOf(rest, d)
      ensures a in Unvoted(Run(calls).storage, env, h)
    {
      LaterVoterWasUnvoted(calls, more, env, h, m, a);
    }
    SubsetIsSmaller(Members(SendersOf(rest, d)), Unvoted(Run(calls).storage, env, h));
  }

  lemma {:induction false} LaterVoterWasUnvoted(
    calls: seq<Call>, more: seq<Call>, env: Env, h: Word, m: Material, a: Address)
    requires Under(more, env) && LogRun(calls).log <= LogRun(calls + more).log
    requires a in SendersOf(LogRun(calls + more).log[|LogRun(calls).log|..], VoteDigest(h, m))
    ensures a in Unvoted(Run(calls).storage, env, h)
  {
    var log, longer, d := LogRun(calls).log, LogRun(calls + more).log, VoteDigest(h, m);
    var rest := longer[|log|..];
    hide Run, LogRun;
    SendersAreVoters(rest, d, a);
    var i :| 0 <= i < |rest| && EntryDigest(rest[i]) == d && rest[i].vote.sender == a;
    assert longer[|log| + i] == rest[i];
    var j := LoggedFrom(calls, more, |log| + i);
    assert more[j] in more;
    LogRunIsLegal(calls + more);
    forall k | 0 <= k < |log|
      ensures !(log[k].vote.handle == h && log[k].vote.sender == a)
    {
      assert longer[k] == log[k];
    }
    FlaggedIffVoted(calls, h, a);
  }

  lemma {:induction false} NextLog(calls: seq<Call>, more: seq<Call>, n: nat)
    requires n < |more|
    ensures LogRun(calls + more[..n + 1]).log == LogStep(LogRun(calls + more[..n]).log, more[n]).0
  {
    assert (calls + more[..n + 1])[..|calls| + n] == calls + more[..n];
  }

  lemma {:induction false} DecisionNeedsVotesLeft(calls: seq<Call>, env: Env, h: Word, more: seq<Call>)
    requires Under(more, env) && !Run(calls).storage.Added(h) && Run(calls + more).storage.Added(h)
    ensures ChainId(h) in env.chains && EnoughVotesLeft(Run(calls).storage, env, h)
  {
    hide Run, LogRun, LogStep, Decided, HasVoted, SendersOf, Unvoted;
    StoredIsDecided(calls, h);
    StoredIsDecided(calls + more, h);
    var n := DecidingCall(calls, more, h);
    var first, c := more[..n], more[n];
    NextLog(calls, more, n);
    assert c in more;
    DecidingLogStep(LogRun(calls + first).log, c, h);
    var m := c.vote.material;
    LaterVotersWereUnvoted(calls, more[..n + 1], env, h, m);
    CounterIsVotes(calls, h, m);
    NotVotedIsUnvoted(calls, first, c, env, h);
  }

  lemma {:induction false} CounterIsVotes(calls: seq<Call>, h: Word, m: Material)
    ensures Run(calls).storage.Counter(VoteDigest(h, m)) == |VotesFor(LogRun(calls).log, h, m)|
  {
    RunRefinesLog(calls);
  }

  lemma {:induction false} NotVotedIsUnvoted(calls: seq<Call>, more: seq<Call>, c: Call, env: Env, h: Word)
    requires Registered(c) && c.env == env && !HasVoted(LogRun(calls + more).log, h, c.vote.sender)
    ensures c.vote.sender in Unvoted(Run(calls).storage, env, h)
  {
    hide Run, LogRun, HasVoted;
    var log, longer, a := LogRun(calls).log, LogRun(calls + more).log, c.vote.sender;
    LogOnlyGrows(calls, more);
    FlaggedIffVoted(calls, h, a);
    if HasVoted(log, h, a) {
      VotedStaysVoted(log, longer, h, a);
    }
  }

  /** All senders that are left vote for the material. */
  lemma {:induction false} VotesLeftDecide(calls: seq<Call>, env: Env, h: Word, m: Material)
    requires ChainId(h) in env.chains && Unvoted(Run(calls).storage, env, h) != {}
    requires Run(calls).storage.Counter(VoteDigest(h, m)) + |Unvoted(Run(calls).storage, env, h)| >= env.threshold
    ensures CanStillDecide(calls, env, h)
  {
    var voters := ListOf(Unvoted(Run(calls).storage, env, h));
    var camp := Camp(voters, h, m, env);
    CampIsFresh(calls, voters, env, h, m);
    FreshCallsAreLogged(calls, camp);
    var log, after := LogRun(calls).log, LogRun(calls + camp).log;
    VotesOfCamp(log, voters, env, h, m);
    CounterIsVotes(calls, h, m);
    LastVoteDecides(after, h, m);
    StoredIsDecided(calls + camp, h);
    assert Under(camp, env);
  }

  lemma {:induction false} CampIsFresh(calls: seq<Call>, voters: seq<Address>, env: Env, h: Word, m: Material)
    requires ChainId(h) in env.chains && NoDuplicates(voters)
    requires Members(voters) == Unvoted(Run(calls).storage, env, h)
    ensures VoteOnce(Camp(voters, h, m, env))
    ensures forall c :: c in Camp(voters, h, m, env) ==>
      Registered(c) && !HasVoted(LogRun(calls).log, c.vote.handle, c.vote.sender)
  {
    RunRefinesLog(calls);
    DistinctSendersVoteOnce(Camp(voters, h, m, env), voters);
    forall i | 0 <= i < |voters|
      ensures voters[i] in env.senders && !HasVoted(LogRun(calls).log, h, voters[i])
    {
      assert voters[i] in Members(voters);
    }
  }

  lemma VotesOfCamp(log: Log, voters: seq<Address>, env: Env, h: Word, m: Material)
    ensures |VotesFor(log + Entries(Camp(voters, h, m, env)), h, m)| == |VotesFor(log, h, m)| + |voters|
  {
    SendersConcat(log, Entries(Camp(voters, h, m, env)), VoteDigest(h, m));
    AllForOne(Camp(voters, h, m, env), h, m);
  }

  lemma LastVoteDecides(log: Log, h: Word, m: Material)
    requires log != [] && log[|log| - 1].vote.handle == h && log[|log| - 1].vote.material == m
    requires |VotesFor(log, h, m)| >= log[|log| - 1].threshold
    ensures Decided(log, h).Some?
  {
  }

  /**
   After any run, under whatever registries and thresholds, an undecided handle can still be decided under the
   present ones if and only if its chain is registered, some registered sender has not voted for it yet, and the
   votes of one material together with all votes that are left meet the threshold.
   */
  lemma {:induction false} CanStillDecideIff(calls: seq<Call>, env: Env, h: Word)
    requires !Run(calls).storage.Added(h)
    ensures CanStillDecide(calls, env, h)
      <==> ChainId(h) in env.chains && EnoughVotesLeft(Run(calls).storage, env, h)
  {
    hide Run, Unvoted;
    if CanStillDecide(calls, env, h) {
      var more :| Under(more, env) && Run(calls + more).storage.Added(h);
      DecisionNeedsVotesLeft(calls, env, h, more);
    }
    if ChainId(h) in env.chains && EnoughVotesLeft(Run(calls).storage, env, h) {
      var m :| Run(calls).storage.Counter(VoteDigest(h, m)) + |Unvoted(Run(calls).storage, env, h)| >= env.threshold;
      VotesLeftDecide(calls, env, h, m);
    }
  }

  // ---------------------------------------------------------------------------------------------
  // A case
  // ---------------------------------------------------------------------------------------------

  function SplitVote(h: Word): seq<Call> {
    var env := Env({1, 2, 3}, {ChainId(h)}, 2);
    [Call(Vote(h, Material(1, 0, 0), 1), env), Call(Vote(h, Material(2, 0, 0), 2), env),
     Call(Vote(h, Material(3, 0, 0), 3), env)]
  }

  lemma ThreeVotes(a: Entry, b: Entry, c: Entry, d: Digest)
    requires EntryDigest(a) != EntryDigest(b) && EntryDigest(b) != EntryDigest(c) && EntryDigest(a) != EntryDigest(c)
    ensures |SendersOf([a, b, c], d)| <= 1
  {
    hide EntryDigest;
    assert [a, b, c] == ([] + [a]) + [b] + [c];
    LogSnoc([], a, d);
    LogSnoc([] + [a], b, d);
    LogSnoc([] + [a] + [b], c, d);
  }

  lemma OneVoteEach(h: Word, m: Material)
    ensures |VotesFor(Entries(SplitVote(h)), h, m)| <= 1
  {
    hide SendersOf;
    var log := Entries(SplitVote(h));
    assert log == [log[0], log[1], log[2]];
    ThreeVotes(log[0], log[1], log[2], VoteDigest(h, m));
  }

  /** Two of three senders decide, each votes once and for a material of its own: the handle is undecided for good. */
  lemma SplitVoteDeadlocks(h: Word)
    ensures
      var env, calls := Env({1, 2, 3}, {ChainId(h)}, 2), SplitVote(h);
      && Under(calls, env) && VoteOnce(calls)
      && !Run(calls).storage.Added(h) && !CanStillDecide(calls, env, h)
  {
    var env, calls := Env({1, 2, 3}, {ChainId(h)}, 2), SplitVote(h);
    hide Run, LogRun, Decided, SendersOf;
    FreshRunIsLogged(calls);
    StoredIsDecided(calls, h);
    DecidedIffQuorum(Entries(calls), 2, h);
    if Decided(Entries(calls), h).Some? {
      OneVoteEach(h, Decided(Entries(calls), h).value);
    }
    forall a | a in env.senders
      ensures Run(calls).storage.AlreadyAdded(h, a)
    {
      assert Entries(calls)[a - 1].vote.sender == a;
      FlaggedIffVoted(calls, h, a);
    }
    CanStillDecideIff(calls, env, h);
  }
}
