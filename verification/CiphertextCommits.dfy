/**
 The CiphertextCommits contract: nine storage mappings written by one method, and its getters.
 The ghost field `history` is the run so far, so everything proved of runs holds of every object.
 */
module CiphertextCommits {
  import opened AbiEncoding
  import opened Words
  import opened Wrappers
  import opened Votes
  import opened CommitsStorage
  import opened CommitsInvariants
  import opened Consensus

  function Record(s: Storage, h: Word, sns: bool): MaterialRecord {
    var digest := if sns then s.SnsCiphertextDigest(h) else s.CiphertextDigest(h);
    MaterialRecord(h, s.KeyId(h), digest, s.ConsensusSenders(h))
  }

  /** All or nothing: one record per handle in the same order, or the first handle that has none. */
  ghost predicate AnswersAll(s: Storage, handles: seq<Word>, sns: bool, r: Result<seq<MaterialRecord>, Word>) {
    match r
    case Ok(records) =>
      && |records| == |handles|
      && forall i :: 0 <= i < |handles| ==> s.Added(handles[i]) && records[i] == Record(s, handles[i], sns)
    case Err(h) =>
      exists i :: 0 <= i < |handles| && handles[i] == h && !s.Added(h)
        && forall j :: 0 <= j < i ==> s.Added(handles[j])
  }

  lemma RunSnoc(calls: seq<Call>, c: Call)
    ensures
      var (s, outcome) := Step(Run(calls).storage, c);
      Run(calls + [c]) == Trace(s, Run(calls).outcomes + [outcome])
  {
  }

  class CiphertextCommits {
    var keyIds: map<Word, Word>
    var ciphertextDigests: map<Word, Word>
    var snsCiphertextDigests: map<Word, Word>
    var added: map<Word, bool>
    var counters: map<Digest, nat>
    var consensusHashes: map<Word, Digest>
    var alreadyAdded: map<(Word, Address), bool>
    var senders: map<Digest, seq<Address>>
    var contextIds: map<Digest, nat>

    ghost var history: seq<Call>

    ghost function View(): Storage
      reads this
    {
      Storage(keyIds, ciphertextDigests, snsCiphertextDigests, added, counters, consensusHashes,
              alreadyAdded, senders, contextIds)
    }

    ghost predicate Valid()
      reads this
    {
      View() == Run(history).storage
    }

    constructor ()
      ensures Valid() && history == []
    {
      keyIds, ciphertextDigests, snsCiphertextDigests, added := map[], map[], map[], map[];
      counters, consensusHashes, alreadyAdded, senders, contextIds := map[], map[], map[], map[], map[];
      history := [];
    }

    method CountVote(hash: Digest, vote: Vote)
      requires hash == VoteDigest(vote.handle, vote.material)
      modifies this
      ensures View() == Count(old(View()), vote) && history == old(history)
    {
      counters := counters[hash := Get(counters, hash, 0) + 1];
      if Get(contextIds, hash, 0) == 0 {
        contextIds := contextIds[hash := 1];
      }
      alreadyAdded := alreadyAdded[(vote.handle, vote.sender) := true];
      senders := senders[hash := Get(senders, hash, []) + [vote.sender]];
    }

    method FreezeMaterial(hash: Digest, handle: Word, material: Material)
      requires hash == VoteDigest(handle, material)
      modifies this
      ensures View() == Freeze(old(View()), handle, material) && history == old(history)
    {
      ciphertextDigests := ciphertextDigests[handle := material.ciphertextDigest];
      snsCiphertextDigests := snsCiphertextDigests[handle := material.snsCiphertextDigest];
      keyIds := keyIds[handle := material.keyId];
      added := added[handle := true];
      consensusHashes := consensusHashes[handle := hash];
    }

    /** isCoprocessorTxSender, isHostChainRegistered and the threshold are what `env` answers. */
    method AddCiphertextMaterial(vote: Vote, env: Env) returns (outcome: Outcome)
      requires Valid()
      modifies this
      ensures Valid() && history == old(history) + [Call(vote, env)]
      ensures Run(history).outcomes == Run(old(history)).outcomes + [outcome]
      ensures (View(), outcome) == Step(old(View()), Call(vote, env))
    {
      RunSnoc(history, Call(vote, env));
      history := history + [Call(vote, env)];
      if vote.sender !in env.senders {
        return Reverted(NotCoprocessorTxSender(vote.sender));
      }
      var chainId := ChainId(vote.handle);
      if chainId !in env.chains {
        return Reverted(HostChainNotRegistered(chainId));
      }
      if Get(alreadyAdded, (vote.handle, vote.sender), false) {
        return Reverted(CoprocessorAlreadyAdded(vote.handle, vote.sender));
      }
      var hash := VoteDigest(vote.handle, vote.material);
      if Get(counters, hash, 0) + 1 == TWO_256 {
        return Reverted(ArithmeticOverflow);
      }
      CountVote(hash, vote);
      var event := Event.AddCiphertextMaterial(vote.handle, vote.material, vote.sender);
      if !Get(added, vote.handle, false) && Get(counters, hash, 0) >= env.threshold {
        FreezeMaterial(hash, vote.handle, vote.material);
        return Accepted(
          [event, AddCiphertextMaterialConsensus(vote.handle, vote.material, Get(senders, hash, []))]);
      }
      return Accepted([event]);
    }

    method IsCiphertextMaterialAdded(handle: Word) returns (r: bool)
      requires Valid()
      ensures r <==> StoredMaterial(Run(history).storage, handle).Some?
    {
      r := Get(added, handle, false);
    }

    method GetAddCiphertextMaterialConsensusTxSenders(handle: Word) returns (r: seq<Address>)
      requires Valid()
      ensures r == Run(history).storage.ConsensusSenders(handle)
      ensures r == [] <==> Decided(LogRun(history).log, handle) == None
    {
      r := Get(senders, Get(consensusHashes, handle, Zero), []);
      LateVotesOnlyExtend(history, [], handle);
      StoredIsDecided(history, handle);
    }

    method GetCiphertextMaterials(handles: seq<Word>) returns (r: Result<seq<MaterialRecord>, Word>)
      requires Valid()
      ensures AnswersAll(View(), handles, false, r)
    {
      var materials := new MaterialRecord[|handles|];
      for i := 0 to |handles|
        invariant View() == old(View())
        invariant forall j :: 0 <= j < i ==>
          View().Added(handles[j]) && materials[j] == Record(View(), handles[j], false)
      {
        var handle := handles[i];
        if !Get(added, handle, false) {
          return Err(handle);
        }
        var hash := Get(consensusHashes, handle, Zero);
        materials[i] := MaterialRecord(
          handle, Get(keyIds, handle, 0), Get(ciphertextDigests, handle, 0), Get(senders, hash, []));
      }
      return Ok(materials[..]);
    }

    method GetSnsCiphertextMaterials(handles: seq<Word>) returns (r: Result<seq<MaterialRecord>, Word>)
      requires Valid()
      ensures AnswersAll(View(), handles, true, r)
    {
      var materials := new MaterialRecord[|handles|];
      for i := 0 to |handles|
        invariant View() == old(View())
        invariant forall j :: 0 <= j < i ==>
          View().Added(handles[j]) && materials[j] == Record(View(), handles[j], true)
      {
        var handle := handles[i];
        if !Get(added, handle, false) {
          return Err(handle);
        }
        var hash := Get(consensusHashes, handle, Zero);
        materials[i] := MaterialRecord(
          handle, Get(keyIds, handle, 0), Get(snsCiphertextDigests, handle, 0), Get(senders, hash, []));
      }
      return Ok(materials[..]);
    }
  }

  /**
   What the getters return for an added handle is what was voted: a logged vote for it has the
   returned key id and both digests, and the senders are those who cast that vote, in order.
   */
  lemma RecordsAreVoted(calls: seq<Call>, h: Word) returns (i: nat)
    requires Run(calls).storage.Added(h)
    ensures i < |LogRun(calls).log|
    ensures
      var s, log := Run(calls).storage, LogRun(calls).log;
      var m := log[i].vote.material;
      && log[i].vote.handle == h
      && Record(s, h, false) == MaterialRecord(h, m.keyId, m.ciphertextDigest, VotesFor(log, h, m))
      && Record(s, h, true) == MaterialRecord(h, m.keyId, m.snsCiphertextDigest, VotesFor(log, h, m))
      && |VotesFor(log, h, m)| >= log[i].threshold
  {
    var s, log := Run(calls).storage, LogRun(calls).log;
    RunRefinesLog(calls);
    assert HoldsDecision(s, h, Decided(log, h));
    i := DecidingEntry(log, h);
    GrowthKeepsDecisions(log[..i + 1], log, h, VoteDigest(h, log[i].vote.material));
    assert s.Senders(s.ConsensusHash(h)) == VotesFor(log, h, log[i].vote.material);
  }
}
