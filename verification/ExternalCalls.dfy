/**
 The two batch getters end to end: calldata bytes in, return data bytes out. Selector dispatch,
 argument decoding, the all-or-nothing lookup and the result encoding are composed as the runtime
 code composes them, over the storage any run of the contract can reach.
 */
module ExternalCalls {
  import opened Words
  import opened Wrappers
  import opened Votes
  import opened CommitsStorage
  import opened Consensus
  import opened AbiEncoder
  import opened AbiEncoding
  import opened Calldata
  import opened CiphertextCommits
  import opened Dispatch

  function Records(s: Storage, handles: seq<Word>, sns: bool): (records: seq<MaterialRecord>)
    ensures |records| == |handles|
    ensures forall i :: 0 <= i < |handles| ==> records[i] == Record(s, handles[i], sns)
  {
    seq(|handles|, i requires 0 <= i < |handles| => Record(s, handles[i], sns))
  }

  predicate AllAdded(s: Storage, handles: seq<Word>) {
    forall h :: h in handles ==> s.Added(h)
  }

  /** What a getter answers is determined: these records, or a revert. */
  lemma AnswerIsRecords(s: Storage, handles: seq<Word>, sns: bool, r: Result<seq<MaterialRecord>, Word>)
    requires AnswersAll(s, handles, sns, r)
    ensures r.Ok? <==> AllAdded(s, handles)
    ensures r.Ok? ==> r.value == Records(s, handles, sns)
  {
  }

  /** The data a call to a batch getter returns; None is a revert or a call to another function. */
  function Serve(s: Storage, data: seq<Byte>): Option<seq<Byte>>
    requires |data| < TWO_256
  {
    if |data| < 4 then None
    else
      match Tree(FromBytes(data[..4]))
      case Some(GetCiphertextMaterials) => ServeGetter(s, data, false)
      case Some(GetSnsCiphertextMaterials) => ServeGetter(s, data, true)
      case _ => None
  }

  function ServeGetter(s: Storage, data: seq<Byte>, sns: bool): Option<seq<Byte>>
    requires 4 <= |data| < TWO_256
  {
    match DecodeHandles(data)
    case Some(span) =>
      var handles := Elements(data, span);
      if AllAdded(s, handles) then Some(EncodeReturn(Records(s, handles, sns))) else None
    case None => None
  }

  function Getter(sns: bool): Function {
    if sns then GetSnsCiphertextMaterials else GetCiphertextMaterials
  }

  // The result of any accepted call is far smaller than the address space it is written to.

  lemma RecordSize(r: MaterialRecord)
    ensures |EncodeRecord(r)| == 160 + 32 * |r.senders|
  {
    hide *;
    FourWords(r);
    AddressTuple(r.senders);
  }

  lemma {:induction false} TailsBound(records: seq<MaterialRecord>, k: nat, most: nat)
    requires k <= |records| && forall r :: r in records ==> |EncodeRecord(r)| <= most
    ensures |Tails(RecordParts(records), k)| <= k * most
  {
    hide EncodeRecord;
    if k > 0 {
      TailsBound(records, k - 1, most);
      assert records[k - 1] in records;
      assert (k - 1) * most + most == k * most;
    }
  }

  lemma ReturnFits(records: seq<MaterialRecord>)
    requires |records| < TWO_64 && forall r :: r in records ==> |r.senders| <= TWO_160
    ensures |EncodeReturn(records)| < TWO_256
  {
    hide *;
    var most := MostBytes();
    forall r | r in records ensures |EncodeRecord(r)| <= most {
      RecordSize(r);
    }
    TailsBound(records, |records|, most);
    ReturnIsOffsetThenRecords(records);
    RecordsSplit(records);
    TupleSizes(RecordParts(records), |records|);
    SmallEnough(|records|, |Tails(RecordParts(records), |records|)|);
  }

  function MostBytes(): (most: nat)
    ensures forall n: nat :: n <= TWO_160 ==> 160 + 32 * n <= most
  {
    160 + 32 * TWO_160
  }

  lemma SmallEnough(n: nat, tails: nat)
    requires n < TWO_64 && tails <= n * MostBytes()
    ensures 64 + 32 * n + tails < TWO_256
  {
  }

  lemma ListsFit(calls: seq<Call>, h: Word)
    ensures |Run(calls).storage.ConsensusSenders(h)| <= TWO_160
  {
    var s := Run(calls).storage;
    RunRefinesLog(calls);
    LogRunIsLegal(calls);
    SendersFit(LogRun(calls).log, s.ConsensusHash(h));
    assert s.Senders(s.ConsensusHash(h)) == SendersOf(LogRun(calls).log, s.ConsensusHash(h));
  }

  /**
   For every run and every list of handles, a canonical call to a batch getter reverts exactly when
   some handle is undecided; otherwise decoding the returned bytes gives, handle by handle in the
   order asked, the stored material and the senders who voted for it.
   */
  lemma {:induction false} GetterRoundTrip(calls: seq<Call>, handles: seq<Word>, sns: bool)
    requires |handles| < TWO_64
    ensures
      var s := Run(calls).storage;
      var data := EncodeCall(SelectorOf(Getter(sns)), handles);
      && |data| < TWO_256
      && (Serve(s, data).None? <==> exists h :: h in handles && StoredMaterial(s, h) == None)
      && (Serve(s, data).Some? ==> DecodeReturn(Serve(s, data).value) == Some(Records(s, handles, sns)))
  {
    var s := Run(calls).storage;
    var selector := SelectorOf(Getter(sns));
    hide EncodeReturn, DecodeReturn, DecodeHandles, Elements, EncodeWords, EncodeTuple, Run, FromBytes, Tree;
    CallLayout(selector, handles);
    var data := EncodeCall(selector, handles);
    assert data[..4] == selector;
    TreeSelectsOwner(selector, Getter(sns));
    CanonicalCallDecodes(selector, handles);
    forall r | r in Records(s, handles, sns) ensures |r.senders| <= TWO_160 {
      ListsFit(calls, r.ctHandle);
    }
    ReturnFits(Records(s, handles, sns));
    ReturnRoundTrip(Records(s, handles, sns));
  }

  /** The selector bytes of getCiphertextMaterials ask for the ciphertext digests. */
  lemma CiphertextMaterialsAnswer(calls: seq<Call>, handles: seq<Word>, i: nat)
    requires |handles| < TWO_64 && i < |handles|
    ensures
      var s, data := Run(calls).storage, EncodeCall([0x55, 0xc4, 0xd9, 0x97], handles);
      |data| < TWO_256 && match Serve(s, data)
      case None => true
      case Some(bytes) =>
        var records := DecodeReturn(bytes);
        && records.Some? && |records.value| == |handles|
        && records.value[i] == MaterialRecord(
             handles[i], s.KeyId(handles[i]), s.CiphertextDigest(handles[i]), s.ConsensusSenders(handles[i]))
  {
    hide Serve, DecodeReturn, EncodeCall, Run;
    GetterRoundTrip(calls, handles, false);
  }

  /** The selector bytes of getSnsCiphertextMaterials ask for the other digests. */
  lemma SnsCiphertextMaterialsAnswer(calls: seq<Call>, handles: seq<Word>, i: nat)
    requires |handles| < TWO_64 && i < |handles|
    ensures
      var s, data := Run(calls).storage, EncodeCall([0xa1, 0x4f, 0x89, 0x71], handles);
      |data| < TWO_256 && match Serve(s, data)
      case None => true
      case Some(bytes) =>
        var records := DecodeReturn(bytes);
        && records.Some? && |records.value| == |handles|
        && records.value[i] == MaterialRecord(
             handles[i], s.KeyId(handles[i]), s.SnsCiphertextDigest(handles[i]), s.ConsensusSenders(handles[i]))
  {
    hide Serve, DecodeReturn, EncodeCall, Run;
    GetterRoundTrip(calls, handles, true);
  }
}
