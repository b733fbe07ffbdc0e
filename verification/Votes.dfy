/**
 The voting protocol of CiphertextCommits as its documentation tells it: an append-only log of
 accepted votes. Who voted for what, and which material is decided, are read off the log. The
 contract's nine storage mappings are proved to agree with this log in CommitsStorage.
 */
module Votes {
  import opened Lists
  import opened Words
  import opened Wrappers

  datatype Material = Material(keyId: Word, ciphertextDigest: Word, snsCiphertextDigest: Word)

  datatype Vote = Vote(handle: Word, material: Material, sender: Address)

  /** What GatewayConfig answers while one call executes. It may change from call to call. */
  datatype Env = Env(senders: set<Address>, chains: set<nat>, threshold: nat)

  datatype Call = Call(vote: Vote, env: Env)

  /** An accepted vote and the threshold that was in force when it was accepted. */
  datatype Entry = Entry(vote: Vote, threshold: nat)

  type Log = seq<Entry>

  datatype Event =
    | AddCiphertextMaterial(handle: Word, material: Material, sender: Address)
    | AddCiphertextMaterialConsensus(handle: Word, material: Material, senders: seq<Address>)

  datatype Revert =
    | NotCoprocessorTxSender(sender: Address)
    | HostChainNotRegistered(chainId: nat)
    | CoprocessorAlreadyAdded(handle: Word, sender: Address)
    | ArithmeticOverflow

  datatype Outcome = Accepted(events: seq<Event>) | Reverted(reason: Revert)

  /** Bits 16 to 79 of the handle. */
  function ChainId(handle: Word): nat {
    handle / 0x1_0000 % TWO_64
  }

  /**
   keccak256 of the ABI encoding of four words, kept symbolic: injective, and never the zero word.
   Preimage gives the bytes that are hashed.
   */
  datatype Digest =
    | Zero
    | Keccak(handle: Word, keyId: Word, ciphertextDigest: Word, snsCiphertextDigest: Word)

  function VoteDigest(handle: Word, m: Material): Digest {
    Keccak(handle, m.keyId, m.ciphertextDigest, m.snsCiphertextDigest)
  }

  /** abi.encode of the four words of a vote hash. */
  function Preimage(d: Digest): seq<Byte>
    requires d.Keccak?
  {
    WordBytes(d.handle) + WordBytes(d.keyId) + WordBytes(d.ciphertextDigest) + WordBytes(d.snsCiphertextDigest)
  }

  function EntryDigest(e: Entry): Digest {
    VoteDigest(e.vote.handle, e.vote.material)
  }

  /** The layout promised for handles: bytes 22 to 29 are the chain id. */
  lemma ChainIdIsBytes22To29(b: seq<Byte>)
    requires |b| == 32
    ensures FromBytes(b) < TWO_256
    ensures ChainId(FromBytes(b)) == FromBytes(b[22..30])
  {
    hide FromBytes, ToBytes;
    Pow256Word();
    FromBytesBound(b);
    FromBytesBound(b[22..30]);
    FromBytesBound(b[30..]);
    assert b == b[..30] + b[30..];
    FromBytesConcat(b[..30], b[30..]);
    assert b[..30] == b[..22] + b[22..30];
    FromBytesConcat(b[..22], b[22..30]);
    assert Pow256(2) == 0x1_0000;
    SplitWord(FromBytes(b[..22]), FromBytes(b[22..30]), FromBytes(b[30..]));
  }

  lemma SplitWord(high: nat, middle: nat, low: nat)
    requires middle < TWO_64 && low < 0x1_0000
    ensures ((high * TWO_64 + middle) * 0x1_0000 + low) / 0x1_0000 % TWO_64 == middle
  {
  }

  /** Two votes hash the same bytes exactly when they name the same handle and the same material. */
  lemma PreimageInjective(h1: Word, m1: Material, h2: Word, m2: Material)
    ensures Preimage(VoteDigest(h1, m1)) == Preimage(VoteDigest(h2, m2)) <==> h1 == h2 && m1 == m2
  {
    var p, q := Preimage(VoteDigest(h1, m1)), Preimage(VoteDigest(h2, m2));
    if p == q {
      forall w | w in [h1, h2, m1.keyId, m2.keyId, m1.ciphertextDigest, m2.ciphertextDigest,
                       m1.snsCiphertextDigest, m2.snsCiphertextDigest]
        ensures FromBytes(WordBytes(w)) == w
      {
        WordRoundTrip(w);
      }
      assert p[..32] == WordBytes(h1) && q[..32] == WordBytes(h2);
      assert p[32..64] == WordBytes(m1.keyId) && q[32..64] == WordBytes(m2.keyId);
      assert p[64..96] == WordBytes(m1.ciphertextDigest) && q[64..96] == WordBytes(m2.ciphertextDigest);
      assert p[96..] == WordBytes(m1.snsCiphertextDigest) && q[96..] == WordBytes(m2.snsCiphertextDigest);
    }
  }

  /** What is hashed is the ABI encoding of handle, key id, digest and the other digest, one word each. */
  lemma PreimageLayout(h: Word, m: Material)
    ensures
      var p := Preimage(VoteDigest(h, m));
      && |p| == 128
      && FromBytes(p[..32]) == h && FromBytes(p[32..64]) == m.keyId
      && FromBytes(p[64..96]) == m.ciphertextDigest && FromBytes(p[96..]) == m.snsCiphertextDigest
  {
    hide WordBytes, FromBytes;
    var p := Preimage(VoteDigest(h, m));
    WordRoundTrip(h);
    WordRoundTrip(m.keyId);
    WordRoundTrip(m.ciphertextDigest);
    WordRoundTrip(m.snsCiphertextDigest);
    assert p[..32] == WordBytes(h) && p[32..64] == WordBytes(m.keyId);
    assert p[64..96] == WordBytes(m.ciphertextDigest) && p[96..] == WordBytes(m.snsCiphertextDigest);
  }

  // ---------------------------------------------------------------------------------------------
  // Reading the log
  // ---------------------------------------------------------------------------------------------

  function SendersOf(log: Log, d: Digest): seq<Address> {
    if log == [] then []
    else
      var last := log[|log| - 1];
      SendersOf(log[..|log| - 1], d) + if EntryDigest(last) == d then [last.vote.sender] else []
  }

  function VotesFor(log: Log, handle: Word, m: Material): seq<Address> {
    SendersOf(log, VoteDigest(handle, m))
  }

  ghost predicate HasVoted(log: Log, handle: Word, sender: Address) {
    exists i :: 0 <= i < |log| && log[i].vote.handle == handle && log[i].vote.sender == sender
  }

  /** The material of the first vote that met its threshold while the handle was undecided. */
  function Decided(log: Log, handle: Word): Option<Material> {
    if log == [] then None
    else
      var last := log[|log| - 1];
      var before := Decided(log[..|log| - 1], handle);
      if before == None && last.vote.handle == handle
         && |VotesFor(log, handle, last.vote.material)| >= last.threshold
      then Some(last.vote.material)
      else before
  }

  /** No sender appears twice for one handle. */
  ghost predicate Legal(log: Log) {
    forall i, j :: 0 <= i < j < |log| ==>
      !(log[i].vote.handle == log[j].vote.handle && log[i].vote.sender == log[j].vote.sender)
  }

  ghost function LogStep(log: Log, c: Call): (r: (Log, Outcome)) {
    var v := c.vote;
    if v.sender !in c.env.senders then (log, Reverted(NotCoprocessorTxSender(v.sender)))
    else if ChainId(v.handle) !in c.env.chains then (log, Reverted(HostChainNotRegistered(ChainId(v.handle))))
    else if HasVoted(log, v.handle, v.sender) then (log, Reverted(CoprocessorAlreadyAdded(v.handle, v.sender)))
    else
      var after := log + [Entry(v, c.env.threshold)];
      var reached :=
        if Decided(log, v.handle) == Decided(after, v.handle) then []
        else [AddCiphertextMaterialConsensus(v.handle, v.material, VotesFor(after, v.handle, v.material))];
      (after, Accepted([AddCiphertextMaterial(v.handle, v.material, v.sender)] + reached))
  }

  datatype LogTrace = LogTrace(log: Log, outcomes: seq<Outcome>)

  ghost function LogRun(calls: seq<Call>): LogTrace {
    if calls == [] then LogTrace([], [])
    else
      var t := LogRun(calls[..|calls| - 1]);
      var (log, outcome) := LogStep(t.log, calls[|calls| - 1]);
      LogTrace(log, t.outcomes + [outcome])
  }

  // ---------------------------------------------------------------------------------------------
  // Facts about logs
  // ---------------------------------------------------------------------------------------------

  lemma LogSnoc(log: Log, e: Entry, d: Digest)
    ensures SendersOf(log + [e], d) == SendersOf(log, d) + if EntryDigest(e) == d then [e.vote.sender] else []
  {
  }

  lemma DecidedSnoc(log: Log, e: Entry, handle: Word)
    ensures Decided(log + [e], handle) ==
      if Decided(log, handle) == None && e.vote.handle == handle
         && |VotesFor(log, handle, e.vote.material)| + 1 >= e.threshold
      then Some(e.vote.material)
      else Decided(log, handle)
  {
  }

  /** A list of senders holds exactly those who cast such a vote. */
  lemma {:induction false} SendersAreVoters(log: Log, d: Digest, a: Address)
    ensures a in SendersOf(log, d) <==>
      exists i :: 0 <= i < |log| && EntryDigest(log[i]) == d && log[i].vote.sender == a
  {
    if log != [] {
      var init, last := log[..|log| - 1], log[|log| - 1];
      SendersAreVoters(init, d, a);
      if EntryDigest(last) == d && last.vote.sender == a {
        assert log[|log| - 1] == last;
      }
      if a in SendersOf(init, d) {
        var i :| 0 <= i < |init| && EntryDigest(init[i]) == d && init[i].vote.sender == a;
        assert log[i] == init[i];
      }
    }
  }

  lemma {:induction false} SendersAreDistinct(log: Log, d: Digest)
    requires Legal(log)
    ensures NoDuplicates(SendersOf(log, d))
  {
    if log != [] {
      var init, last := log[..|log| - 1], log[|log| - 1];
      SendersAreDistinct(init, d);
      if EntryDigest(last) == d {
        SendersAreVoters(init, d, last.vote.sender);
        forall i | 0 <= i < |init| && EntryDigest(init[i]) == d
          ensures init[i].vote.sender != last.vote.sender
        {
          assert log[i] == init[i];
        }
      }
    }
  }

  /** There are only 2^160 addresses, so no list of senders is longer than that. */
  lemma SendersFit(log: Log, d: Digest)
    requires Legal(log)
    ensures |SendersOf(log, d)| <= TWO_160
  {
    SendersAreDistinct(log, d);
    var s := SendersOf(log, d);
    DistinctHasSetSize(s);
    SetOfBoundedNats(Members(s), TWO_160);
  }

  /** A decided handle has at least one vote for the decided material. */
  lemma {:induction false} DecidedHasVote(log: Log, handle: Word)
    ensures Decided(log, handle).Some? ==> VotesFor(log, handle, Decided(log, handle).value) != []
  {
    if log != [] {
      DecidedHasVote(log[..|log| - 1], handle);
    }
  }

  // ---------------------------------------------------------------------------------------------
  // Logs only grow
  // ---------------------------------------------------------------------------------------------

  lemma {:induction false} LogRunIsLegal(calls: seq<Call>)
    ensures Legal(LogRun(calls).log)
    ensures |LogRun(calls).outcomes| == |calls|
  {
    if calls != [] {
      LogRunIsLegal(calls[..|calls| - 1]);
    }
  }

  lemma {:induction false} LogOnlyGrows(calls: seq<Call>, more: seq<Call>)
    ensures LogRun(calls).log <= LogRun(calls + more).log
  {
    if more == [] {
      assert calls + more == calls;
    } else {
      var init := more[..|more| - 1];
      LogOnlyGrows(calls, init);
      assert (calls + more)[..|calls + more| - 1] == calls + init;
      LogRunGrowsByOne(calls + more);
    }
  }

  lemma LogRunGrowsByOne(calls: seq<Call>)
    requires calls != []
    ensures LogRun(calls[..|calls| - 1]).log <= LogRun(calls).log
  {
    var log, c := LogRun(calls[..|calls| - 1]).log, calls[|calls| - 1];
    StepGrows(log, c);
    assert LogRun(calls).log == LogStep(log, c).0;
  }

  lemma StepGrows(log: Log, c: Call)
    ensures log <= LogStep(log, c).0
  {
  }

  /** Appending votes never changes a decision and never removes a sender. */
  lemma {:induction false} GrowthKeepsDecisions(log: Log, longer: Log, handle: Word, d: Digest)
    requires log <= longer
    ensures Decided(log, handle).Some? ==> Decided(longer, handle) == Decided(log, handle)
    ensures SendersOf(log, d) <= SendersOf(longer, d)
  {
    if |log| < |longer| {
      GrowthKeepsDecisions(log, longer[..|longer| - 1], handle, d);
    } else {
      assert log == longer;
    }
  }

  /** The vote that decided a handle. */
  lemma {:induction false} DecidingEntry(log: Log, h: Word) returns (k: nat)
    requires Decided(log, h).Some?
    ensures k < |log| && log[k].vote.handle == h && Decided(log, h) == Some(log[k].vote.material)
    ensures Decided(log[..k], h) == None && Decided(log[..k + 1], h).Some?
    ensures |VotesFor(log[..k + 1], h, log[k].vote.material)| >= log[k].threshold
  {
    var init := log[..|log| - 1];
    if Decided(init, h).Some? {
      k := DecidingEntry(init, h);
      assert init[..k + 1] == log[..k + 1] && init[..k] == log[..k];
    } else {
      k := |log| - 1;
      assert log[..k + 1] == log;
    }
  }
}
