/**
 The part of GatewayConfig that CiphertextCommits asks: the coprocessors' transaction senders, the
 coprocessor threshold and the host chains. A reverted call leaves every field as it was.
 */
module GatewayConfig {
  import opened Lists
  import opened Words
  import opened Votes
  import opened CommitsStorage
  import opened Confluence
  import opened Validity

  datatype Coprocessor = Coprocessor(txSender: Address, signer: Address, s3BucketUrl: string)

  /** What an address without an entry reads as. */
  const NO_COPROCESSOR := Coprocessor(0, 0, "")

  datatype ConfigResult =
    | Updated
    | NotOwner
    | EmptyCoprocessors
    | InvalidNullCoprocessorThreshold
    | InvalidHighCoprocessorThreshold(threshold: nat, coprocessors: nat)
    | InvalidNullChainId
    | ChainIdNotUint64(chainId: nat)
    | HostChainAlreadyRegistered(chainId: nat)

  datatype ConfigEvent =
    | CoprocessorsUpdated(coprocessors: seq<Coprocessor>, threshold: nat)
    | ThresholdUpdated(threshold: nat)
    | HostChainAdded(chainId: nat)

  function TxSenders(coprocessors: seq<Coprocessor>): (senders: seq<Address>)
    ensures |senders| == |coprocessors|
  {
    seq(|coprocessors|, i requires 0 <= i < |coprocessors| => coprocessors[i].txSender)
  }

  function Signers(coprocessors: seq<Coprocessor>): (signers: seq<Address>)
    ensures |signers| == |coprocessors|
  {
    seq(|coprocessors|, i requires 0 <= i < |coprocessors| => coprocessors[i].signer)
  }

  /** The last entry of a list that names this sender, if any. */
  function EntryOf(coprocessors: seq<Coprocessor>, a: Address): Coprocessor {
    if coprocessors == [] then NO_COPROCESSOR
    else if coprocessors[|coprocessors| - 1].txSender == a then coprocessors[|coprocessors| - 1]
    else EntryOf(coprocessors[..|coprocessors| - 1], a)
  }

  predicate HasSender(coprocessors: seq<Coprocessor>, a: Address) {
    exists c :: c in coprocessors && c.txSender == a
  }

  predicate HasSigner(coprocessors: seq<Coprocessor>, a: Address) {
    exists c :: c in coprocessors && c.signer == a
  }

  lemma {:induction false} ListedIff(coprocessors: seq<Coprocessor>, a: Address)
    ensures a in TxSenders(coprocessors) <==> HasSender(coprocessors, a)
    ensures a in Signers(coprocessors) <==> HasSigner(coprocessors, a)
  {
    if c :| c in coprocessors && c.txSender == a {
      var i :| 0 <= i < |coprocessors| && coprocessors[i] == c;
      assert TxSenders(coprocessors)[i] == a;
    }
    if c :| c in coprocessors && c.signer == a {
      var i :| 0 <= i < |coprocessors| && coprocessors[i] == c;
      assert Signers(coprocessors)[i] == a;
    }
  }

  /** What _setCoprocessors and _setCoprocessorThreshold answer. */
  function CheckCoprocessors(coprocessors: seq<Coprocessor>, threshold: nat): ConfigResult {
    if coprocessors == [] then EmptyCoprocessors
    else if threshold == 0 then InvalidNullCoprocessorThreshold
    else if threshold > |coprocessors| then InvalidHighCoprocessorThreshold(threshold, |coprocessors|)
    else Updated
  }

  lemma ClearOne<V>(m: map<Address, V>, cleared: map<Address, V>, zero: V, list: seq<Address>, i: nat)
    requires i < |list| && forall a :: Get(m, a, zero) != zero ==> a in list[i..]
    requires cleared == m[list[i] := zero]
    ensures forall a :: Get(cleared, a, zero) != zero ==> a in list[i + 1..]
  {
    forall a | Get(cleared, a, zero) != zero
      ensures a in list[i + 1..]
    {
      assert Get(m, a, zero) != zero;
      assert list[i..] == [list[i]] + list[i + 1..];
    }
  }

  lemma {:induction false} EntryIsListed(coprocessors: seq<Coprocessor>, a: Address)
    ensures EntryOf(coprocessors, a) != NO_COPROCESSOR ==> a in TxSenders(coprocessors)
    ensures a !in TxSenders(coprocessors) ==> EntryOf(coprocessors, a) == Coprocessor(0, 0, "")
    ensures a in TxSenders(coprocessors) ==>
      exists i :: 0 <= i < |coprocessors|
        && coprocessors[i] == EntryOf(coprocessors, a) && coprocessors[i].txSender == a
        && forall j :: i < j < |coprocessors| ==> coprocessors[j].txSender != a
  {
    if coprocessors != [] {
      var init, last := coprocessors[..|coprocessors| - 1], coprocessors[|coprocessors| - 1];
      EntryIsListed(init, a);
      assert TxSenders(coprocessors) == TxSenders(init) + [last.txSender];
    }
  }

  lemma {:induction false} EntriesAreListed(coprocessors: seq<Coprocessor>)
    ensures forall a :: EntryOf(coprocessors, a) != NO_COPROCESSOR ==> a in TxSenders(coprocessors)
    ensures forall a :: a in Members(TxSenders(coprocessors)) <==> HasSender(coprocessors, a)
    ensures forall a :: a in Signers(coprocessors) <==> HasSigner(coprocessors, a)
  {
    hide EntryOf, HasSender, HasSigner;
    forall a
      ensures EntryOf(coprocessors, a) != NO_COPROCESSOR ==> a in TxSenders(coprocessors)
      ensures a in TxSenders(coprocessors) <==> HasSender(coprocessors, a)
      ensures a in Signers(coprocessors) <==> HasSigner(coprocessors, a)
    {
      EntryIsListed(coprocessors, a);
      ListedIff(coprocessors, a);
    }
  }

  class GatewayConfig {
    var isCoprocessorTxSender: map<Address, bool>
    var isCoprocessorSigner: map<Address, bool>
    var coprocessors: map<Address, Coprocessor>
    var txSenderAddresses: seq<Address>
    var signerAddresses: seq<Address>
    var coprocessorThreshold: nat
    var isHostChainRegistered: map<nat, bool>
    var hostChains: seq<nat>

    /** The flags are exactly the lists, and a threshold is between one and the number of coprocessors. */
    ghost predicate Valid()
      reads this
    {
      && |txSenderAddresses| == |signerAddresses|
      && (forall a :: Get(isCoprocessorTxSender, a, false) <==> a in txSenderAddresses)
      && (forall a :: Get(isCoprocessorSigner, a, false) <==> a in signerAddresses)
      && (forall a :: Get(coprocessors, a, NO_COPROCESSOR) != NO_COPROCESSOR ==> a in txSenderAddresses)
      && (if signerAddresses == [] then coprocessorThreshold == 0 else 1 <= coprocessorThreshold <= |signerAddresses|)
      && (forall c :: Get(isHostChainRegistered, c, false) <==> c in hostChains)
      && (forall c :: c in hostChains ==> 0 < c < TWO_64) && NoDuplicates(hostChains)
    }

    /** What a call to CiphertextCommits is answered now. */
    ghost function Answers(): Env
      reads this
    {
      Env(Members(txSenderAddresses), Members(hostChains), coprocessorThreshold)
    }

    constructor ()
      ensures Valid() && txSenderAddresses == [] && hostChains == []
    {
      isCoprocessorTxSender, isCoprocessorSigner, isHostChainRegistered := map[], map[], map[];
      txSenderAddresses, signerAddresses, hostChains, coprocessors := [], [], [], map[];
      coprocessorThreshold := 0;
    }

    method IsCoprocessorTxSender(a: Address) returns (r: bool)
      requires Valid()
      ensures r <==> a in Answers().senders
    {
      r := Get(isCoprocessorTxSender, a, false);
    }

    method IsHostChainRegistered(c: nat) returns (r: bool)
      requires Valid()
      ensures r <==> c in Answers().chains
    {
      r := Get(isHostChainRegistered, c, false);
    }

    /** The first loop of updateCoprocessors clears all flags and entries of the listed, then the lists go. */
    method RemoveCoprocessors()
      requires Valid()
      modifies `isCoprocessorTxSender, `isCoprocessorSigner, `coprocessors, `txSenderAddresses, `signerAddresses
      ensures forall a :: !Get(isCoprocessorTxSender, a, false) && !Get(isCoprocessorSigner, a, false)
      ensures forall a :: Get(coprocessors, a, NO_COPROCESSOR) == NO_COPROCESSOR
      ensures txSenderAddresses == [] && signerAddresses == []
    {
      for i := 0 to |txSenderAddresses|
        invariant txSenderAddresses == old(txSenderAddresses) && signerAddresses == old(signerAddresses)
        invariant forall a :: Get(isCoprocessorTxSender, a, false) ==> a in txSenderAddresses[i..]
        invariant forall a :: Get(isCoprocessorSigner, a, false) ==> a in signerAddresses[i..]
        invariant forall a :: Get(coprocessors, a, NO_COPROCESSOR) != NO_COPROCESSOR ==> a in txSenderAddresses[i..]
      {
        ghost var txFlags, signerFlags, entries := isCoprocessorTxSender, isCoprocessorSigner, coprocessors;
        isCoprocessorTxSender := isCoprocessorTxSender[txSenderAddresses[i] := false];
        isCoprocessorSigner := isCoprocessorSigner[signerAddresses[i] := false];
        coprocessors := coprocessors[txSenderAddresses[i] := NO_COPROCESSOR];
        ClearOne(txFlags, isCoprocessorTxSender, false, txSenderAddresses, i);
        ClearOne(signerFlags, isCoprocessorSigner, false, signerAddresses, i);
        ClearOne(entries, coprocessors, NO_COPROCESSOR, txSenderAddresses, i);
      }
      txSenderAddresses, signerAddresses := [], [];
    }

    /** The loop of _setCoprocessors, on cleared mappings and lists; the later of two entries of one sender stays. */
    method RegisterCoprocessors(newCoprocessors: seq<Coprocessor>)
      requires forall a :: !Get(isCoprocessorTxSender, a, false) && !Get(isCoprocessorSigner, a, false)
      requires forall a :: Get(coprocessors, a, NO_COPROCESSOR) == NO_COPROCESSOR
      requires txSenderAddresses == [] && signerAddresses == []
      modifies `isCoprocessorTxSender, `isCoprocessorSigner, `coprocessors, `txSenderAddresses, `signerAddresses
      ensures txSenderAddresses == TxSenders(newCoprocessors) && signerAddresses == Signers(newCoprocessors)
      ensures forall a :: Get(isCoprocessorTxSender, a, false) <==> a in txSenderAddresses
      ensures forall a :: Get(isCoprocessorSigner, a, false) <==> a in signerAddresses
      ensures forall a :: Get(coprocessors, a, NO_COPROCESSOR) == EntryOf(newCoprocessors, a)
    {
      for i := 0 to |newCoprocessors|
        invariant txSenderAddresses == TxSenders(newCoprocessors[..i])
        invariant signerAddresses == Signers(newCoprocessors[..i])
        invariant forall a :: Get(isCoprocessorTxSender, a, false) <==> a in txSenderAddresses
        invariant forall a :: Get(isCoprocessorSigner, a, false) <==> a in signerAddresses
        invariant forall a :: Get(coprocessors, a, NO_COPROCESSOR) == EntryOf(newCoprocessors[..i], a)
      {
        assert newCoprocessors[..i + 1][..i] == newCoprocessors[..i];
        isCoprocessorTxSender := isCoprocessorTxSender[newCoprocessors[i].txSender := true];
        coprocessors := coprocessors[newCoprocessors[i].txSender := newCoprocessors[i]];
        txSenderAddresses := txSenderAddresses + [newCoprocessors[i].txSender];
        isCoprocessorSigner := isCoprocessorSigner[newCoprocessors[i].signer := true];
        signerAddresses := signerAddresses + [newCoprocessors[i].signer];
      }
      assert newCoprocessors[..|newCoprocessors|] == newCoprocessors;
    }

    method UpdateCoprocessors(byOwner: bool, newCoprocessors: seq<Coprocessor>, threshold: nat)
      returns (r: ConfigResult, events: seq<ConfigEvent>)
      requires Valid()
      modifies this
      ensures Valid()
      ensures events == if r == Updated then [CoprocessorsUpdated(newCoprocessors, threshold)] else []
      ensures r == Updated <==> byOwner && newCoprocessors != [] && 1 <= threshold <= |newCoprocessors|
      ensures r == NotOwner <==> !byOwner
      ensures r == EmptyCoprocessors <==> byOwner && newCoprocessors == []
      ensures r == InvalidNullCoprocessorThreshold <==> byOwner && newCoprocessors != [] && threshold == 0
      ensures r == InvalidHighCoprocessorThreshold(threshold, |newCoprocessors|)
        <==> byOwner && newCoprocessors != [] && threshold > |newCoprocessors|
      ensures r == if byOwner then CheckCoprocessors(newCoprocessors, threshold) else NotOwner
      ensures r == Updated ==> forall a :: a in Answers().senders <==> HasSender(newCoprocessors, a)
      ensures r == Updated ==> forall a :: a in signerAddresses <==> HasSigner(newCoprocessors, a)
      ensures Answers() ==
        if r == Updated then Env(Members(TxSenders(newCoprocessors)), old(Answers()).chains, threshold)
        else old(Answers())
      ensures signerAddresses == if r == Updated then Signers(newCoprocessors) else old(signerAddresses)
      ensures r == Updated ==> forall a :: Get(coprocessors, a, NO_COPROCESSOR) == EntryOf(newCoprocessors, a)
      ensures r != Updated ==> coprocessors == old(coprocessors)
    {
      hide EntryOf, HasSender, HasSigner;
      events := [];
      if !byOwner {
        return NotOwner, [];
      }
      var txFlags, signerFlags, entries := isCoprocessorTxSender, isCoprocessorSigner, coprocessors;
      var txList, signerList := txSenderAddresses, signerAddresses;
      RemoveCoprocessors();
      RegisterCoprocessors(newCoprocessors);
      r := CheckCoprocessors(newCoprocessors, threshold);
      if r == Updated {
        coprocessorThreshold := threshold;
        events := [CoprocessorsUpdated(newCoprocessors, threshold)];
        EntriesAreListed(newCoprocessors);
      } else {
        // a revert undoes the writes
        isCoprocessorTxSender, isCoprocessorSigner, coprocessors := txFlags, signerFlags, entries;
        txSenderAddresses, signerAddresses := txList, signerList;
      }
    }

    method UpdateCoprocessorThreshold(byOwner: bool, threshold: nat) returns (r: ConfigResult, events: seq<ConfigEvent>)
      requires Valid()
      modifies `coprocessorThreshold
      ensures Valid()
      ensures r == Updated <==> byOwner && 1 <= threshold <= |signerAddresses|
      ensures r == NotOwner <==> !byOwner
      ensures r == InvalidHighCoprocessorThreshold(threshold, |signerAddresses|)
        <==> byOwner && threshold > |signerAddresses|
      ensures r == InvalidNullCoprocessorThreshold <==> byOwner && threshold == 0
      ensures events == if r == Updated then [ThresholdUpdated(threshold)] else []
      ensures coprocessorThreshold == if r == Updated then threshold else old(coprocessorThreshold)
    {
      if !byOwner {
        return NotOwner, [];
      }
      if threshold == 0 {
        return InvalidNullCoprocessorThreshold, [];
      }
      if threshold > |signerAddresses| {
        return InvalidHighCoprocessorThreshold(threshold, |signerAddresses|), [];
      }
      coprocessorThreshold := threshold;
      return Updated, [ThresholdUpdated(threshold)];
    }

    method AddHostChain(byOwner: bool, chainId: nat) returns (r: ConfigResult, events: seq<ConfigEvent>)
      requires Valid()
      modifies `isHostChainRegistered, `hostChains
      ensures Valid()
      ensures r == Updated <==> byOwner && 0 < chainId < TWO_64 && chainId !in old(Answers()).chains
      ensures r == NotOwner <==> !byOwner
      ensures r == InvalidNullChainId <==> byOwner && chainId == 0
      ensures r == ChainIdNotUint64(chainId) <==> byOwner && chainId >= TWO_64
      ensures r == HostChainAlreadyRegistered(chainId)
        <==> byOwner && 0 < chainId < TWO_64 && chainId in old(Answers()).chains
      ensures events == if r == Updated then [HostChainAdded(chainId)] else []
      ensures Answers() ==
        if r == Updated then old(Answers()).(chains := old(Answers()).chains + {chainId}) else old(Answers())
    {
      if !byOwner {
        return NotOwner, [];
      }
      if chainId == 0 {
        return InvalidNullChainId, [];
      }
      if chainId > TWO_64 - 1 {
        return ChainIdNotUint64(chainId), [];
      }
      if Get(isHostChainRegistered, chainId, false) {
        return HostChainAlreadyRegistered(chainId), [];
      }
      hostChains := hostChains + [chainId];
      isHostChainRegistered := isHostChainRegistered[chainId := true];
      return Updated, [HostChainAdded(chainId)];
    }
  }

  // ---------------------------------------------------------------------------------------------
  // What the accepted configurations guarantee
  // ---------------------------------------------------------------------------------------------

  function EnvOf(coprocessors: seq<Coprocessor>, threshold: nat, chains: set<nat>): Env {
    Env(Members(TxSenders(coprocessors)), chains, threshold)
  }

  /**
   An accepted configuration can decide a handle of a registered chain exactly when its list has at least
   threshold many distinct senders.
   */
  lemma AcceptedConfigCanDecide(coprocessors: seq<Coprocessor>, threshold: nat, chains: set<nat>, h: Word)
    requires CheckCoprocessors(coprocessors, threshold) == Updated
    ensures CanDecide(EnvOf(coprocessors, threshold, chains), h)
      <==> ChainId(h) in chains && threshold <= |Members(TxSenders(coprocessors))|
  {
    CanDecideIffQuorumExists(EnvOf(coprocessors, threshold, chains), h);
  }

  /** The check counts list entries, so a sender listed twice can make an accepted threshold unreachable. */
  lemma RepeatedSenderCannotDecide(
    a: Address, signer1: Address, signer2: Address, url: string, chains: set<nat>, h: Word)
    ensures
      var coprocessors := [Coprocessor(a, signer1, url), Coprocessor(a, signer2, url)];
      CheckCoprocessors(coprocessors, 2) == Updated && !CanDecide(EnvOf(coprocessors, 2, chains), h)
  {
    var coprocessors := [Coprocessor(a, signer1, url), Coprocessor(a, signer2, url)];
    assert TxSenders(coprocessors)[0] == a;
    assert Members(TxSenders(coprocessors)) == {a};
    CanDecideIffQuorumExists(EnvOf(coprocessors, 2, chains), h);
  }

  /** Accepted thresholds need not be majorities: single votes commute exactly above half the distinct senders. */
  lemma AcceptedConfigConfluence(coprocessors: seq<Coprocessor>, threshold: nat, chains: set<nat>, h: Word)
    requires CheckCoprocessors(coprocessors, threshold) == Updated
    requires ChainId(h) in chains
    ensures OrderIndependent(EnvOf(coprocessors, threshold, chains))
      <==> 2 * threshold > |Members(TxSenders(coprocessors))|
  {
    var env := EnvOf(coprocessors, threshold, chains);
    ConfluentIffMajority(env);
    assert AcceptsSomeHandle(env);
  }

  /**
   With an accepted configuration, an honest majority of the distinct senders is enough for valid results
   exactly when the threshold is at least half their number.
   */
  lemma AcceptedConfigIsValid(coprocessors: seq<Coprocessor>, threshold: nat, chains: set<nat>, h: Word)
    requires CheckCoprocessors(coprocessors, threshold) == Updated
    requires ChainId(h) in chains
    ensures HonestMajorityIsEnough(EnvOf(coprocessors, threshold, chains), h)
      <==> 2 * threshold >= |Members(TxSenders(coprocessors))|
  {
    HonestMajorityIsEnoughIff(EnvOf(coprocessors, threshold, chains), h);
  }

  /** Three coprocessors under threshold one are accepted, and one dishonest coprocessor can store what it likes. */
  lemma ThresholdOneIsNotValid(h: Word)
    ensures
      var coprocessors := [Coprocessor(1, 1, ""), Coprocessor(2, 2, ""), Coprocessor(3, 3, "")];
      CheckCoprocessors(coprocessors, 1) == Updated
      && !HonestMajorityIsEnough(EnvOf(coprocessors, 1, {ChainId(h)}), h)
  {
    var coprocessors := [Coprocessor(1, 1, ""), Coprocessor(2, 2, ""), Coprocessor(3, 3, "")];
    DistinctHasSetSize(TxSenders(coprocessors));
    AcceptedConfigIsValid(coprocessors, 1, {ChainId(h)}, h);
  }
}
