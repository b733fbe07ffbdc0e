/** Consensus on one material per handle: when a handle is added, and what its consensus event carries. */
module Consensus {
  import opened Lists
  import opened Words
  import opened Wrappers
  import opened Votes
  import opened CommitsStorage

  /** The number of votes that decides under threshold `t`: a threshold of zero is met by one vote. */
  function Quorum(t: nat): nat {
    if t == 0 then 1 else t
  }

  predicate FixedThreshold(calls: seq<Call>, t: nat) {
    forall c :: c in calls ==> c.env.threshold == t
  }

  /** The material the mappings hold for a handle, if any. */
  function StoredMaterial(s: Storage, h: Word): Option<Material> {
    if s.Added(h) then Some(Material(s.KeyId(h), s.CiphertextDigest(h), s.SnsCiphertextDigest(h))) else None
  }

  lemma StoredIsDecided(calls: seq<Call>, h: Word)
    ensures StoredMaterial(Run(calls).storage, h) == Decided(LogRun(calls).log, h)
  {
    RunRefinesLog(calls);
    assert HoldsDecision(Run(calls).storage, h, Decided(LogRun(calls).log, h));
  }

  // ---------------------------------------------------------------------------------------------
  // A fixed threshold: added iff some vote hash reached it
  // ---------------------------------------------------------------------------------------------

  lemma {:induction false} DecidedIffQuorum(log: Log, t: nat, h: Word)
    requires forall e :: e in log ==> e.threshold == t
    ensures Decided(log, h).Some? ==> |VotesFor(log, h, Decided(log, h).value)| >= Quorum(t)
    ensures Decided(log, h) == None ==> forall m :: |VotesFor(log, h, m)| < Quorum(t)
  {
    if log != [] {
      var init, e := log[..|log| - 1], log[|log| - 1];
      assert log == init + [e];
      DecidedIffQuorum(init, t, h);
      DecidedSnoc(init, e, h);
      forall m
        ensures VotesFor(log, h, m) == VotesFor(init, h, m)
          + if e.vote.handle == h && e.vote.material == m then [e.vote.sender] else []
      {
        LogSnoc(init, e, VoteDigest(h, m));
      }
    }
  }

  lemma {:induction false} LoggedUnder(calls: seq<Call>, t: nat)
    requires FixedThreshold(calls, t)
    ensures forall e :: e in LogRun(calls).log ==> e.threshold == t
  {
    if calls != [] {
      LoggedUnder(calls[..|calls| - 1], t);
    }
  }

  /** Under a fixed threshold a handle is added iff one of its vote hashes has reached it. */
  lemma {:induction false} AddedIffQuorum(calls: seq<Call>, t: nat, h: Word)
    requires FixedThreshold(calls, t)
    ensures
      var s := Run(calls).storage;
      s.Added(h) <==> exists m :: s.Counter(VoteDigest(h, m)) >= Quorum(t)
  {
    var s, log := Run(calls).storage, LogRun(calls).log;
    RunRefinesLog(calls);
    LoggedUnder(calls, t);
    DecidedIffQuorum(log, t, h);
    assert HoldsDecision(s, h, Decided(log, h));
    assert forall m :: s.Counter(VoteDigest(h, m)) == |VotesFor(log, h, m)|;
    if s.Added(h) {
      assert s.Counter(VoteDigest(h, Decided(log, h).value)) >= Quorum(t);
    }
  }

  // ---------------------------------------------------------------------------------------------
  // The consensus event
  // ---------------------------------------------------------------------------------------------

  function ConsensusIn(events: seq<Event>, h: Word): seq<Event> {
    if events == [] then []
    else
      var last := events[|events| - 1];
      ConsensusIn(events[..|events| - 1], h)
        + if last.AddCiphertextMaterialConsensus? && last.handle == h then [last] else []
  }

  /** All consensus events emitted for a handle, in order. */
  function ConsensusEvents(outcomes: seq<Outcome>, h: Word): seq<Event> {
    if outcomes == [] then []
    else
      var last := outcomes[|outcomes| - 1];
      ConsensusEvents(outcomes[..|outcomes| - 1], h)
        + if last.Accepted? then ConsensusIn(last.events, h) else []
  }

  lemma ConsensusInVote(vote: Event, reached: seq<Event>, h: Word)
    requires vote.AddCiphertextMaterial? && |reached| <= 1
    ensures ConsensusIn([vote] + reached, h) == ConsensusIn(reached, h)
    ensures reached == [] ==> ConsensusIn(reached, h) == []
    ensures |reached| == 1 && reached[0].AddCiphertextMaterialConsensus? ==>
      ConsensusIn(reached, h) == if reached[0].handle == h then reached else []
  {
  }

  /** What one accepted vote adds to the consensus events of a handle. */
  lemma StepConsensus(log: Log, c: Call, h: Word)
    requires LogStep(log, c).1.Accepted?
    ensures
      var after, m := LogStep(log, c).0, c.vote.material;
      ConsensusIn(LogStep(log, c).1.events, h) ==
        if Decided(log, h) == Decided(after, h) then []
        else [AddCiphertextMaterialConsensus(h, m, VotesFor(after, h, m))]
  {
    var v, e := c.vote, Entry(c.vote, c.env.threshold);
    DecidedSnoc(log, e, h);
    var reached :=
      if Decided(log, v.handle) == Decided(log + [e], v.handle) then []
      else [AddCiphertextMaterialConsensus(v.handle, v.material, VotesFor(log + [e], v.handle, v.material))];
    ConsensusInVote(AddCiphertextMaterial(v.handle, v.material, v.sender), reached, h);
  }

  /** The one consensus event of a handle: a quorum of senders if the threshold never changed. */
  ghost predicate EventMatches(calls: seq<Call>, e: Event, h: Word, m: Material, senders: seq<Address>) {
    && e.AddCiphertextMaterialConsensus? && e.handle == h && e.material == m
    && e.senders <= senders
    && forall t :: FixedThreshold(calls, t) ==> |e.senders| == Quorum(t)
  }

  ghost predicate EventsMatch(calls: seq<Call>, log: Log, events: seq<Event>, h: Word) {
    match Decided(log, h)
    case None => events == []
    case Some(m) => |events| == 1 && EventMatches(calls, events[0], h, m, VotesFor(log, h, m))
  }

  /** The vote that decides a handle brings its count to the quorum and no further. */
  lemma DecidingVote(log: Log, e: Entry, h: Word)
    requires Decided(log, h) == None && Decided(log + [e], h).Some?
    ensures e.vote.handle == h && Decided(log + [e], h) == Some(e.vote.material)
    ensures forall t :: (forall x :: x in log + [e] ==> x.threshold == t) ==>
      |VotesFor(log + [e], h, e.vote.material)| == Quorum(t)
  {
    DecidedSnoc(log, e, h);
    LogSnoc(log, e, EntryDigest(e));
    forall t | forall x :: x in log + [e] ==> x.threshold == t
      ensures |VotesFor(log + [e], h, e.vote.material)| == Quorum(t)
    {
      assert e in log + [e];
      assert forall x :: x in log ==> x in log + [e];
      DecidedIffQuorum(log, t, h);
    }
  }

  lemma VoteKeepsEventsMatching(calls: seq<Call>, log: Log, c: Call, events: seq<Event>, h: Word)
    requires c in calls && LogStep(log, c).1.Accepted?
    requires EventsMatch(calls, log, events, h)
    requires forall t :: FixedThreshold(calls, t) ==> forall x :: x in LogStep(log, c).0 ==> x.threshold == t
    ensures EventsMatch(calls, LogStep(log, c).0, events + ConsensusIn(LogStep(log, c).1.events, h), h)
  {
    var e := Entry(c.vote, c.env.threshold);
    StepConsensus(log, c, h);
    if Decided(log, h).Some? {
      GrowthKeepsDecisions(log, log + [e], h, VoteDigest(h, Decided(log, h).value));
    } else if Decided(log + [e], h).Some? {
      DecidingVote(log, e, h);
    }
  }

  lemma {:induction false} LogConsensusEvents(calls: seq<Call>, prefix: seq<Call>, h: Word)
    requires prefix <= calls
    ensures EventsMatch(calls, LogRun(prefix).log, ConsensusEvents(LogRun(prefix).outcomes, h), h)
  {
    if prefix != [] {
      var init, c := prefix[..|prefix| - 1], prefix[|prefix| - 1];
      LogConsensusEvents(calls, init, h);
      var t := LogRun(init);
      var (after, outcome) := LogStep(t.log, c);
      assert LogRun(prefix) == LogTrace(after, t.outcomes + [outcome]);
      assert (t.outcomes + [outcome])[..|t.outcomes|] == t.outcomes;
      if outcome.Accepted? {
        forall q | FixedThreshold(calls, q)
          ensures forall x :: x in after ==> x.threshold == q
        {
          LoggedUnder(prefix, q);
        }
        VoteKeepsEventsMatching(calls, t.log, c, ConsensusEvents(t.outcomes, h), h);
      }
    }
  }

  /**
   The consensus event of a handle is emitted exactly once if the handle is added and never otherwise.
   It carries the stored material and the first voters for it: with a fixed threshold, exactly a
   quorum of distinct senders.
   */
  lemma ConsensusEventOnce(calls: seq<Call>, h: Word)
    ensures
      var s, events := Run(calls).storage, ConsensusEvents(Run(calls).outcomes, h);
      match StoredMaterial(s, h)
      case None => events == []
      case Some(m) =>
        && |events| == 1 && EventMatches(calls, events[0], h, m, s.ConsensusSenders(h))
        && NoDuplicates(events[0].senders)
  {
    var s, log := Run(calls).storage, LogRun(calls).log;
    RunRefinesLog(calls);
    LogRunIsLegal(calls);
    StoredIsDecided(calls, h);
    LogConsensusEvents(calls, calls, h);
    if s.Added(h) {
      var d := s.ConsensusHash(h);
      assert HoldsDecision(s, h, Decided(log, h));
      assert s.Senders(d) == SendersOf(log, d);
      SendersAreDistinct(log, d);
    }
  }
}
