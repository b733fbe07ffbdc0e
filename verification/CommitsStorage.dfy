/**
 The nine storage mappings of CiphertextCommits, the one function that writes them, and the proof
 that after every run they are exactly what the vote log says they should be.
 */
module CommitsStorage {
  import opened Words
  import opened Wrappers
  import opened Votes

  function Get<K, V>(m: map<K, V>, key: K, default: V): V {
    if key in m then m[key] else default
  }

  /** A mapping entry never written reads as zero, which the member functions make explicit. */
  datatype Storage = Storage(
    keyIds: map<Word, Word>,
    ciphertextDigests: map<Word, Word>,
    snsCiphertextDigests: map<Word, Word>,
    added: map<Word, bool>,
    counters: map<Digest, nat>,
    consensusHashes: map<Word, Digest>,
    alreadyAdded: map<(Word, Address), bool>,
    senders: map<Digest, seq<Address>>,
    contextIds: map<Digest, nat>)
  {
    function KeyId(h: Word): Word { Get(keyIds, h, 0) }
    function CiphertextDigest(h: Word): Word { Get(ciphertextDigests, h, 0) }
    function SnsCiphertextDigest(h: Word): Word { Get(snsCiphertextDigests, h, 0) }
    function Added(h: Word): bool { Get(added, h, false) }
    function Counter(d: Digest): nat { Get(counters, d, 0) }
    function ConsensusHash(h: Word): Digest { Get(consensusHashes, h, Zero) }
    function AlreadyAdded(h: Word, a: Address): bool { Get(alreadyAdded, (h, a), false) }
    function Senders(d: Digest): seq<Address> { Get(senders, d, []) }
    function ContextId(d: Digest): nat { Get(contextIds, d, 0) }

    /** What getAddCiphertextMaterialConsensusTxSenders returns. */
    function ConsensusSenders(h: Word): seq<Address> { Senders(ConsensusHash(h)) }
  }

  const EMPTY := Storage(map[], map[], map[], map[], map[], map[], map[], map[], map[])

  /** The bookkeeping every accepted vote causes, decided or not. */
  function Count(s: Storage, v: Vote): Storage {
    var d := VoteDigest(v.handle, v.material);
    s.(counters := s.counters[d := s.Counter(d) + 1],
       contextIds := if s.ContextId(d) == 0 then s.contextIds[d := 1] else s.contextIds,
       alreadyAdded := s.alreadyAdded[(v.handle, v.sender) := true],
       senders := s.senders[d := s.Senders(d) + [v.sender]])
  }

  /** The five writes that freeze a handle. */
  function Freeze(s: Storage, h: Word, m: Material): Storage {
    s.(ciphertextDigests := s.ciphertextDigests[h := m.ciphertextDigest],
       snsCiphertextDigests := s.snsCiphertextDigests[h := m.snsCiphertextDigest],
       keyIds := s.keyIds[h := m.keyId],
       added := s.added[h := true],
       consensusHashes := s.consensusHashes[h := VoteDigest(h, m)])
  }

  /** addCiphertextMaterial: the checks in order, then the writes and the events. */
  function Step(s: Storage, c: Call): (Storage, Outcome) {
    var v := c.vote;
    var d := VoteDigest(v.handle, v.material);
    if v.sender !in c.env.senders then (s, Reverted(NotCoprocessorTxSender(v.sender)))
    else if ChainId(v.handle) !in c.env.chains then (s, Reverted(HostChainNotRegistered(ChainId(v.handle))))
    else if s.AlreadyAdded(v.handle, v.sender) then (s, Reverted(CoprocessorAlreadyAdded(v.handle, v.sender)))
    else if s.Counter(d) + 1 == TWO_256 then (s, Reverted(ArithmeticOverflow))
    else
      var counted := Count(s, v);
      var vote := AddCiphertextMaterial(v.handle, v.material, v.sender);
      if !counted.Added(v.handle) && counted.Counter(d) >= c.env.threshold then
        (Freeze(counted, v.handle, v.material),
         Accepted([vote, AddCiphertextMaterialConsensus(v.handle, v.material, counted.Senders(d))]))
      else
        (counted, Accepted([vote]))
  }

  datatype Trace = Trace(storage: Storage, outcomes: seq<Outcome>)

  function Run(calls: seq<Call>): Trace {
    if calls == [] then Trace(EMPTY, [])
    else
      var t := Run(calls[..|calls| - 1]);
      var (s, outcome) := Step(t.storage, calls[|calls| - 1]);
      Trace(s, t.outcomes + [outcome])
  }

  // ---------------------------------------------------------------------------------------------
  // Refinement: the mappings are the vote log
  // ---------------------------------------------------------------------------------------------

  ghost predicate CountsVotes(s: Storage, log: Log) {
    && (forall d :: s.Counter(d) == |SendersOf(log, d)|)
    && (forall d :: s.Senders(d) == SendersOf(log, d))
    && (forall d :: s.ContextId(d) == if SendersOf(log, d) == [] then 0 else 1)
    && (forall h, a :: s.AlreadyAdded(h, a) == HasVoted(log, h, a))
  }

  /** The five per-handle mappings hold the decided material, or all read as zero. */
  ghost predicate HoldsDecision(s: Storage, h: Word, decided: Option<Material>) {
    match decided
    case None =>
      !s.Added(h) && s.ConsensusHash(h) == Zero
      && s.KeyId(h) == 0 && s.CiphertextDigest(h) == 0 && s.SnsCiphertextDigest(h) == 0
    case Some(m) =>
      s.Added(h) && s.ConsensusHash(h) == VoteDigest(h, m)
      && s.KeyId(h) == m.keyId && s.CiphertextDigest(h) == m.ciphertextDigest
      && s.SnsCiphertextDigest(h) == m.snsCiphertextDigest
  }

  ghost predicate Represents(s: Storage, log: Log) {
    && CountsVotes(s, log)
    && forall h :: HoldsDecision(s, h, Decided(log, h))
  }

  lemma CountRefines(s: Storage, log: Log, v: Vote, threshold: nat)
    requires CountsVotes(s, log)
    ensures CountsVotes(Count(s, v), log + [Entry(v, threshold)])
  {
    var e := Entry(v, threshold);
    var after, s' := log + [e], Count(s, v);
    forall d
      ensures s'.Counter(d) == |SendersOf(after, d)| && s'.Senders(d) == SendersOf(after, d)
      ensures s'.ContextId(d) == if SendersOf(after, d) == [] then 0 else 1
    {
      LogSnoc(log, e, d);
      assert s.ContextId(d) == if SendersOf(log, d) == [] then 0 else 1;
    }
    forall h, a
      ensures s'.AlreadyAdded(h, a) == HasVoted(after, h, a)
    {
      assert s.AlreadyAdded(h, a) == HasVoted(log, h, a);
      if (h, a) == (v.handle, v.sender) {
        assert after[|log|] == e;
      } else if HasVoted(log, h, a) {
        var i :| 0 <= i < |log| && log[i].vote.handle == h && log[i].vote.sender == a;
        assert after[i] == log[i];
      }
    }
  }

  lemma FreezeKeepsCounts(s: Storage, log: Log, h: Word, m: Material)
    requires CountsVotes(s, log)
    ensures CountsVotes(Freeze(s, h, m), log)
  {
  }

  lemma FreezeHoldsDecision(s: Storage, h: Word, m: Material, other: Word, decided: Option<Material>)
    requires HoldsDecision(s, other, decided)
    ensures HoldsDecision(Freeze(s, h, m), other, if other == h then Some(m) else decided)
  {
  }

  lemma CountKeepsDecision(s: Storage, v: Vote, h: Word, decided: Option<Material>)
    requires HoldsDecision(s, h, decided)
    ensures HoldsDecision(Count(s, v), h, decided)
  {
  }

  /** Counting a vote, then freezing the handle exactly when the log says it is now decided. */
  lemma VoteRefines(s: Storage, log: Log, v: Vote, threshold: nat)
    requires Represents(s, log)
    ensures
      var d := VoteDigest(v.handle, v.material);
      var counted, after := Count(s, v), log + [Entry(v, threshold)];
      && counted.Senders(d) == VotesFor(after, v.handle, v.material)
      && (!counted.Added(v.handle) && counted.Counter(d) >= threshold
          <==> Decided(log, v.handle) != Decided(after, v.handle))
      && Represents(if Decided(log, v.handle) != Decided(after, v.handle)
                    then Freeze(counted, v.handle, v.material) else counted, after)
  {
    var d := VoteDigest(v.handle, v.material);
    var e := Entry(v, threshold);
    var counted, after := Count(s, v), log + [e];
    CountRefines(s, log, v, threshold);
    LogSnoc(log, e, d);
    FreezeKeepsCounts(counted, after, v.handle, v.material);
    assert counted.Counter(d) == |SendersOf(after, d)|;
    assert counted.Senders(d) == SendersOf(after, d);
    assert HoldsDecision(s, v.handle, Decided(log, v.handle));
    forall h
      ensures HoldsDecision(counted, h, Decided(log, h))
      ensures HoldsDecision(Freeze(counted, v.handle, v.material), h,
                            if h == v.handle then Some(v.material) else Decided(log, h))
      ensures h != v.handle ==> Decided(after, h) == Decided(log, h)
    {
      assert HoldsDecision(s, h, Decided(log, h));
      DecidedSnoc(log, e, h);
      CountKeepsDecision(s, v, h, Decided(log, h));
      FreezeHoldsDecision(counted, v.handle, v.material, h, Decided(log, h));
    }
    DecidedSnoc(log, e, v.handle);
  }

  /** The two checks against storage answer as the log would, and the counter is far from overflowing. */
  lemma StorageAnswers(s: Storage, log: Log, v: Vote)
    requires Represents(s, log) && Legal(log)
    ensures s.Counter(VoteDigest(v.handle, v.material)) + 1 != TWO_256
    ensures s.AlreadyAdded(v.handle, v.sender) == HasVoted(log, v.handle, v.sender)
  {
    var d := VoteDigest(v.handle, v.material);
    SendersFit(log, d);
    assert s.Counter(d) == |SendersOf(log, d)|;
  }

  /** One call does to the mappings what it does to the log, and answers the same. */
  lemma StepRefines(s: Storage, log: Log, c: Call)
    requires Represents(s, log) && Legal(log)
    ensures Represents(Step(s, c).0, LogStep(log, c).0)
    ensures Step(s, c).1 == LogStep(log, c).1
  {
    hide Represents, Count, Freeze, SendersOf, HasVoted, Decided;
    var v := c.vote;
    StorageAnswers(s, log, v);
    if v.sender in c.env.senders && ChainId(v.handle) in c.env.chains && !HasVoted(log, v.handle, v.sender) {
      VoteRefines(s, log, v, c.env.threshold);
      var counted, after := Count(s, v), log + [Entry(v, c.env.threshold)];
      assert LogStep(log, c).0 == after;
      if Decided(log, v.handle) != Decided(after, v.handle) {
        assert Step(s, c).0 == Freeze(counted, v.handle, v.material);
      } else {
        assert Step(s, c).0 == counted;
      }
    }
  }

  /**
   After every run, whatever the registries and thresholds were along the way, the nine mappings
   are the abstraction of the log of accepted votes, and every call answered as the log would.
   */
  lemma {:induction false} RunRefinesLog(calls: seq<Call>)
    ensures Represents(Run(calls).storage, LogRun(calls).log)
    ensures Run(calls).outcomes == LogRun(calls).outcomes
  {
    if calls != [] {
      var init := calls[..|calls| - 1];
      RunRefinesLog(init);
      LogRunIsLegal(init);
      StepRefines(Run(init).storage, LogRun(init).log, calls[|calls| - 1]);
    }
  }
}
