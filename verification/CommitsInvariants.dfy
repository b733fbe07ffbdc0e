/**
 What every run of CiphertextCommits keeps, whatever GatewayConfig answers along the way:
 conservation of votes, duplicate-free and disjoint sender lists, counters that cannot overflow,
 and handles that are frozen for good once they are added.
 */
module CommitsInvariants {
  import opened Lists
  import opened Words
  import opened Votes
  import opened CommitsStorage

  /** The checked increment of a vote counter never panics. */
  lemma CountersNeverOverflow(calls: seq<Call>, c: Call)
    ensures Step(Run(calls).storage, c).1 != Reverted(ArithmeticOverflow)
  {
    RunRefinesLog(calls);
    LogRunIsLegal(calls);
    StepRefines(Run(calls).storage, LogRun(calls).log, c);
  }

  /** A sender list holds no one twice and is as long as its counter. */
  lemma {:induction false} ListsMatchCounters(calls: seq<Call>, d: Digest)
    ensures NoDuplicates(Run(calls).storage.Senders(d))
    ensures |Run(calls).storage.Senders(d)| == Run(calls).storage.Counter(d)
  {
    var s, log := Run(calls).storage, LogRun(calls).log;
    RunRefinesLog(calls);
    LogRunIsLegal(calls);
    assert s.Senders(d) == SendersOf(log, d) && s.Counter(d) == |SendersOf(log, d)|;
    SendersAreDistinct(log, d);
  }

  lemma ListsOfOneHandleAreDisjoint(calls: seq<Call>, h: Word, m1: Material, m2: Material, a: Address)
    requires m1 != m2
    requires a in Run(calls).storage.Senders(VoteDigest(h, m1))
    ensures a !in Run(calls).storage.Senders(VoteDigest(h, m2))
  {
    var s, log := Run(calls).storage, LogRun(calls).log;
    RunRefinesLog(calls);
    LogRunIsLegal(calls);
    var d1, d2 := VoteDigest(h, m1), VoteDigest(h, m2);
    assert s.Senders(d1) == SendersOf(log, d1) && s.Senders(d2) == SendersOf(log, d2);
    SendersAreVoters(log, d1, a);
    SendersAreVoters(log, d2, a);
    var i :| 0 <= i < |log| && EntryDigest(log[i]) == d1 && log[i].vote.sender == a;
    forall j | 0 <= j < |log| && EntryDigest(log[j]) == d2
      ensures log[j].vote.sender != a
    {
    }
  }

  /** The lists are where the votes are: a sender is flagged for a handle iff exactly one list of it has him. */
  lemma {:induction false} FlaggedIffListed(calls: seq<Call>, h: Word, a: Address)
    ensures
      var s := Run(calls).storage;
      && (s.AlreadyAdded(h, a) <==> exists m :: a in s.Senders(VoteDigest(h, m)))
      && forall m1, m2 :: a in s.Senders(VoteDigest(h, m1)) && a in s.Senders(VoteDigest(h, m2)) ==> m1 == m2
  {
    var s, log := Run(calls).storage, LogRun(calls).log;
    RunRefinesLog(calls);
    assert s.AlreadyAdded(h, a) == HasVoted(log, h, a);
    if HasVoted(log, h, a) {
      var i :| 0 <= i < |log| && log[i].vote.handle == h && log[i].vote.sender == a;
      var d := VoteDigest(h, log[i].vote.material);
      SendersAreVoters(log, d, a);
      assert EntryDigest(log[i]) == d;
      assert a in s.Senders(d);
    }
    forall m | a in s.Senders(VoteDigest(h, m))
      ensures HasVoted(log, h, a)
    {
      var d := VoteDigest(h, m);
      assert s.Senders(d) == SendersOf(log, d);
      SendersAreVoters(log, d, a);
      var i :| 0 <= i < |log| && EntryDigest(log[i]) == d && log[i].vote.sender == a;
    }
    forall m1, m2 | a in s.Senders(VoteDigest(h, m1)) && a in s.Senders(VoteDigest(h, m2))
      ensures m1 == m2
    {
      if m1 != m2 {
        ListsOfOneHandleAreDisjoint(calls, h, m1, m2, a);
      }
    }
  }

  // ---------------------------------------------------------------------------------------------
  // Conservation
  // ---------------------------------------------------------------------------------------------

  predicate IsVoteHashOf(d: Digest, h: Word) {
    d.Keccak? && d.handle == h
  }

  /** Every other vote hash of the handle has an unwritten, zero counter. */
  ghost function HandleDigests(s: Storage, h: Word): set<Digest> {
    set d | d in s.counters.Keys && IsVoteHashOf(d, h)
  }

  ghost function SumCounters(s: Storage, ds: set<Digest>): nat {
    if ds == {} then 0
    else
      var d :| d in ds;
      s.Counter(d) + SumCounters(s, ds - {d})
  }

  ghost function FlaggedSenders(s: Storage, h: Word): set<Address> {
    set p | p in s.alreadyAdded.Keys && p.0 == h && s.alreadyAdded[p] :: p.1
  }

  ghost predicate Conserved(s: Storage, h: Word) {
    SumCounters(s, HandleDigests(s, h)) == |FlaggedSenders(s, h)|
  }

  lemma {:induction false} SumPick(s: Storage, ds: set<Digest>, d: Digest)
    requires d in ds
    ensures SumCounters(s, ds) == s.Counter(d) + SumCounters(s, ds - {d})
  {
    var p :| p in ds && SumCounters(s, ds) == s.Counter(p) + SumCounters(s, ds - {p});
    if p != d {
      SumPick(s, ds - {p}, d);
      SumPick(s, ds - {d}, p);
      assert ds - {p} - {d} == ds - {d} - {p};
    }
  }

  lemma {:induction false} SumFrame(s: Storage, t: Storage, ds: set<Digest>)
    requires forall d :: d in ds ==> s.Counter(d) == t.Counter(d)
    ensures SumCounters(s, ds) == SumCounters(t, ds)
  {
    if ds != {} {
      var d :| d in ds;
      SumPick(s, ds, d);
      SumPick(t, ds, d);
      SumFrame(s, t, ds - {d});
    }
  }

  lemma CountAddsOne(s: Storage, v: Vote)
    ensures
      SumCounters(Count(s, v), HandleDigests(Count(s, v), v.handle)) == SumCounters(s, HandleDigests(s, v.handle)) + 1
  {
    var t, d := Count(s, v), VoteDigest(v.handle, v.material);
    var before, now := HandleDigests(s, v.handle), HandleDigests(t, v.handle);
    assert now == before + {d};
    SumPick(t, now, d);
    assert now - {d} == before - {d};
    SumFrame(s, t, before - {d});
    if d in before {
      SumPick(s, before, d);
    }
  }

  lemma CountConserves(s: Storage, v: Vote, h: Word)
    requires Conserved(s, h) && !s.AlreadyAdded(v.handle, v.sender)
    ensures Conserved(Count(s, v), h)
  {
    var t := Count(s, v);
    if v.handle == h {
      CountAddsOne(s, v);
      FlagOne(s, t, v);
    } else {
      assert HandleDigests(t, h) == HandleDigests(s, h);
      SumFrame(s, t, HandleDigests(s, h));
      assert FlaggedSenders(t, h) == FlaggedSenders(s, h);
    }
  }

  lemma FlagOne(s: Storage, t: Storage, v: Vote)
    requires !s.AlreadyAdded(v.handle, v.sender)
    requires t.alreadyAdded == s.alreadyAdded[(v.handle, v.sender) := true]
    ensures |FlaggedSenders(t, v.handle)| == |FlaggedSenders(s, v.handle)| + 1
  {
    assert v.sender !in FlaggedSenders(s, v.handle);
    forall a ensures a in FlaggedSenders(t, v.handle) <==> a in FlaggedSenders(s, v.handle) + {v.sender} {
      if a in FlaggedSenders(s, v.handle) + {v.sender} {
        assert (v.handle, a) in t.alreadyAdded.Keys;
      }
    }
    assert FlaggedSenders(t, v.handle) == FlaggedSenders(s, v.handle) + {v.sender};
  }

  lemma FreezeConserves(s: Storage, f: Word, m: Material, h: Word)
    requires Conserved(s, h)
    ensures Conserved(Freeze(s, f, m), h)
  {
    SumFrame(s, Freeze(s, f, m), HandleDigests(s, h));
  }

  /** Votes are conserved: the counters of a handle's vote hashes add up to its flagged senders. */
  lemma {:induction false} Conservation(calls: seq<Call>, h: Word)
    ensures Conserved(Run(calls).storage, h)
  {
    if calls == [] {
      assert HandleDigests(EMPTY, h) == {} && FlaggedSenders(EMPTY, h) == {};
    } else {
      var init, c := calls[..|calls| - 1], calls[|calls| - 1];
      Conservation(init, h);
      var s := Run(init).storage;
      if Step(s, c).1.Accepted? {
        CountConserves(s, c.vote, h);
        FreezeConserves(Count(s, c.vote), c.vote.handle, c.vote.material, h);
      }
    }
  }

  // ---------------------------------------------------------------------------------------------
  // Frozen handles
  // ---------------------------------------------------------------------------------------------

  lemma GrowingRuns(calls: seq<Call>, more: seq<Call>, h: Word)
    ensures Represents(Run(calls).storage, LogRun(calls).log)
    ensures Represents(Run(calls + more).storage, LogRun(calls + more).log)
    ensures Decided(LogRun(calls).log, h).Some? ==>
      Decided(LogRun(calls + more).log, h) == Decided(LogRun(calls).log, h)
    ensures HoldsDecision(Run(calls).storage, h, Decided(LogRun(calls).log, h))
    ensures HoldsDecision(Run(calls + more).storage, h, Decided(LogRun(calls + more).log, h))
  {
    RunRefinesLog(calls);
    RunRefinesLog(calls + more);
    LogOnlyGrows(calls, more);
    GrowthKeepsDecisions(LogRun(calls).log, LogRun(calls + more).log, h, Zero);
  }

  /** Once a handle is added, its five entries are the same after every continuation of the run. */
  lemma {:induction false} WriteOnce(calls: seq<Call>, more: seq<Call>, h: Word)
    requires Run(calls).storage.Added(h)
    ensures
      var s, t := Run(calls).storage, Run(calls + more).storage;
      && t.Added(h)
      && t.KeyId(h) == s.KeyId(h)
      && t.CiphertextDigest(h) == s.CiphertextDigest(h)
      && t.SnsCiphertextDigest(h) == s.SnsCiphertextDigest(h)
      && t.ConsensusHash(h) == s.ConsensusHash(h)
  {
    GrowingRuns(calls, more, h);
  }

  /** The stored triple is the preimage of the stored hash; an undecided handle stores nothing at all. */
  lemma {:induction false} StoredTripleHashes(calls: seq<Call>, h: Word)
    ensures
      var s := Run(calls).storage;
      var stored := Material(s.KeyId(h), s.CiphertextDigest(h), s.SnsCiphertextDigest(h));
      && s.ConsensusHash(h) == (if s.Added(h) then VoteDigest(h, stored) else Zero)
      && (!s.Added(h) ==> stored == Material(0, 0, 0))
  {
    RunRefinesLog(calls);
    assert HoldsDecision(Run(calls).storage, h, Decided(LogRun(calls).log, h));
  }

  lemma {:induction false} NoVoteHashesToZero(log: Log)
    ensures SendersOf(log, Zero) == []
  {
    if log != [] {
      NoVoteHashesToZero(log[..|log| - 1]);
    }
  }

  /** The list of a decided handle only grows at its end; the list of an undecided handle is empty. */
  lemma LateVotesOnlyExtend(calls: seq<Call>, more: seq<Call>, h: Word)
    ensures Run(calls).storage.ConsensusSenders(h) <= Run(calls + more).storage.ConsensusSenders(h)
    ensures Run(calls).storage.ConsensusSenders(h) == [] <==> !Run(calls).storage.Added(h)
  {
    var s, log := Run(calls).storage, LogRun(calls).log;
    var t, longer := Run(calls + more).storage, LogRun(calls + more).log;
    GrowingRuns(calls, more, h);
    var d := s.ConsensusHash(h);
    LogOnlyGrows(calls, more);
    GrowthKeepsDecisions(log, longer, h, d);
    assert s.Senders(d) == SendersOf(log, d) && t.Senders(d) == SendersOf(longer, d);
    NoVoteHashesToZero(log);
    DecidedHasVote(log, h);
  }

  // ---------------------------------------------------------------------------------------------
  // Answers
  // ---------------------------------------------------------------------------------------------

  /**
   When a call reverts, and why: the sender is checked first, then the chain, then whether he has voted. An accepted
   call emits the vote, and the consensus only if it stores the material.
   */
  lemma {:induction false} OutcomeIff(calls: seq<Call>, c: Call)
    ensures
      var s, v, outcome := Run(calls).storage, c.vote, Step(Run(calls).storage, c).1;
      var registered, known := v.sender in c.env.senders, ChainId(v.handle) in c.env.chains;
      && (outcome == Reverted(NotCoprocessorTxSender(v.sender)) <==> !registered)
      && (outcome == Reverted(HostChainNotRegistered(ChainId(v.handle))) <==> registered && !known)
      && (outcome == Reverted(CoprocessorAlreadyAdded(v.handle, v.sender)) <==>
            registered && known && s.AlreadyAdded(v.handle, v.sender))
      && (outcome.Accepted? <==> registered && known && !s.AlreadyAdded(v.handle, v.sender))
      && (outcome.Accepted? ==>
            && 1 <= |outcome.events| <= 2
            && outcome.events[0] == AddCiphertextMaterial(v.handle, v.material, v.sender)
            && (|outcome.events| == 2 <==> !s.Added(v.handle) && Step(s, c).0.Added(v.handle)))
  {
    CountersNeverOverflow(calls, c);
  }
}
