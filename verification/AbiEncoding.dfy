/**
 The contract ABI encoding of the getters' results, as the "Formal Specification of the Encoding"
 in the Solidity Contract ABI Specification defines it, with a decoder that follows offsets.
 */
module AbiEncoding {
  import opened Words
  import opened Wrappers

  /** CiphertextMaterial and SnsCiphertextMaterial, which differ only in whose digest they carry. */
  datatype MaterialRecord = MaterialRecord(ctHandle: Word, keyId: Word, digest: Word, senders: seq<Address>)

  // ---------------------------------------------------------------------------------------------
  // The specification: heads, then tails
  // ---------------------------------------------------------------------------------------------

  /** The encoding of one component of a tuple, and whether its type is dynamic. */
  datatype Part = Static(bytes: seq<Byte>) | Dynamic(bytes: seq<Byte>)

  /** The size of the first `k` heads: a dynamic component's head is one offset word. */
  function HeadSize(parts: seq<Part>, k: nat): nat
    requires k <= |parts|
  {
    if k == 0 then 0
    else HeadSize(parts, k - 1) + if parts[k - 1].Static? then |parts[k - 1].bytes| else 32
  }

  function Tails(parts: seq<Part>, k: nat): seq<Byte>
    requires k <= |parts|
  {
    if k == 0 then []
    else Tails(parts, k - 1) + if parts[k - 1].Static? then [] else parts[k - 1].bytes
  }

  /** Where the tail of component `k` starts, counted from the start of the tuple. */
  function TailStart(parts: seq<Part>, k: nat): nat
    requires k <= |parts|
  {
    HeadSize(parts, |parts|) + |Tails(parts, k)|
  }

  function Heads(parts: seq<Part>, k: nat): (h: seq<Byte>)
    requires k <= |parts|
    ensures |h| == HeadSize(parts, k)
  {
    if k == 0 then []
    else
      Heads(parts, k - 1)
      + if parts[k - 1].Static? then parts[k - 1].bytes else WordBytes(TailStart(parts, k - 1))
  }

  function EncodeTuple(parts: seq<Part>): seq<Byte> {
    Heads(parts, |parts|) + Tails(parts, |parts|)
  }

  function WordParts(words: seq<nat>): (parts: seq<Part>)
    ensures |parts| == |words|
    ensures forall i :: 0 <= i < |parts| ==> parts[i] == Static(WordBytes(words[i]))
  {
    seq(|words|, i requires 0 <= i < |words| => Static(WordBytes(words[i])))
  }

  /** A dynamic array of one-word elements: addresses, or bytes32. */
  function EncodeWords(words: seq<nat>): seq<Byte> {
    WordBytes(|words|) + EncodeTuple(WordParts(words))
  }

  function FieldParts(r: MaterialRecord): seq<Part> {
    [Static(WordBytes(r.ctHandle)), Static(WordBytes(r.keyId)), Static(WordBytes(r.digest)),
     Dynamic(EncodeWords(r.senders))]
  }

  function EncodeRecord(r: MaterialRecord): seq<Byte> {
    EncodeTuple(FieldParts(r))
  }

  function RecordParts(records: seq<MaterialRecord>): (parts: seq<Part>)
    ensures |parts| == |records|
    ensures forall i :: 0 <= i < |parts| ==> parts[i] == Dynamic(EncodeRecord(records[i]))
  {
    seq(|records|, i requires 0 <= i < |records| => Dynamic(EncodeRecord(records[i])))
  }

  function EncodeRecords(records: seq<MaterialRecord>): seq<Byte> {
    WordBytes(|records|) + EncodeTuple(RecordParts(records))
  }

  /** The data a getter returns: a tuple of one dynamic array. */
  function EncodeReturn(records: seq<MaterialRecord>): seq<Byte> {
    EncodeTuple([Dynamic(EncodeRecords(records))])
  }

  // ---------------------------------------------------------------------------------------------
  // Bytes in place
  // ---------------------------------------------------------------------------------------------

  ghost predicate At(data: seq<Byte>, pos: nat, e: seq<Byte>) {
    pos + |e| <= |data| && data[pos..pos + |e|] == e
  }

  lemma AtSlice(data: seq<Byte>, pos: nat, e: seq<Byte>, lo: nat, hi: nat)
    requires At(data, pos, e) && lo <= hi <= |e|
    ensures At(data, pos + lo, e[lo..hi])
  {
    var slice := data[pos + lo..pos + hi];
    forall k | 0 <= k < hi - lo
      ensures slice[k] == e[lo..hi][k]
    {
      assert slice[k] == data[pos + lo + k] == data[pos..pos + |e|][lo + k];
    }
  }

  lemma AtBound(data: seq<Byte>, pos: nat, e: seq<Byte>)
    requires At(data, pos, e)
    ensures pos + |e| <= |data|
  {
  }

  lemma AtConcat(data: seq<Byte>, pos: nat, a: seq<Byte>, b: seq<Byte>)
    ensures At(data, pos, a + b) <==> At(data, pos, a) && At(data, pos + |a|, b)
  {
    if At(data, pos, a + b) {
      assert (a + b)[..|a|] == a && (a + b)[|a|..] == b;
      AtSlice(data, pos, a + b, 0, |a|);
      AtSlice(data, pos, a + b, |a|, |a + b|);
    }
    if At(data, pos, a) && At(data, pos + |a|, b) {
      assert data[pos..pos + |a + b|] == data[pos..pos + |a|] + data[pos + |a|..pos + |a| + |b|];
    }
  }

  // ---------------------------------------------------------------------------------------------
  // Layout: every head lands on its tail, and the tails tile the rest
  // ---------------------------------------------------------------------------------------------

  lemma {:induction false} HeadsPrefix(parts: seq<Part>, i: nat, k: nat)
    requires i <= k <= |parts|
    ensures Heads(parts, i) <= Heads(parts, k) && Tails(parts, i) <= Tails(parts, k)
  {
    if i < k {
      HeadsPrefix(parts, i, k - 1);
    }
  }

  lemma TupleSizes(parts: seq<Part>, k: nat)
    requires k <= |parts|
    ensures EncodeTuple(parts) == Heads(parts, |parts|) + Tails(parts, |parts|)
    ensures TailStart(parts, k) == HeadSize(parts, |parts|) + |Tails(parts, k)|
    ensures |EncodeTuple(parts)| == TailStart(parts, |parts|)
  {
  }

  /** Component `i` occupies these slices of the heads and of the tails. */
  lemma ComponentSlices(data: seq<Byte>, pos: nat, parts: seq<Part>, i: nat)
    requires i < |parts| && At(data, pos, EncodeTuple(parts))
    ensures
      var heads, tails := Heads(parts, i + 1), Tails(parts, i + 1);
      && At(data, pos + HeadSize(parts, i), heads[HeadSize(parts, i)..])
      && At(data, pos + TailStart(parts, i), tails[|Tails(parts, i)|..])
  {
    hide *;
    var n := |parts|;
    var heads, tails := Heads(parts, n), Tails(parts, n);
    TupleSizes(parts, i);
    AtConcat(data, pos, heads, tails);
    HeadsPrefix(parts, i, i + 1);
    HeadsPrefix(parts, i + 1, n);
    AtSlice(data, pos, heads, HeadSize(parts, i), HeadSize(parts, i + 1));
    assert heads[HeadSize(parts, i)..HeadSize(parts, i + 1)] == Heads(parts, i + 1)[HeadSize(parts, i)..];
    AtSlice(data, pos + |heads|, tails, |Tails(parts, i)|, |Tails(parts, i + 1)|);
    assert tails[|Tails(parts, i)|..|Tails(parts, i + 1)|] == Tails(parts, i + 1)[|Tails(parts, i)|..];
  }

  lemma LastComponent(parts: seq<Part>, i: nat)
    requires i < |parts|
    ensures Heads(parts, i + 1)[HeadSize(parts, i)..] ==
      if parts[i].Static? then parts[i].bytes else WordBytes(TailStart(parts, i))
    ensures Tails(parts, i + 1)[|Tails(parts, i)|..] == if parts[i].Static? then [] else parts[i].bytes
  {
  }

  /** In an encoded tuple the head of a static component is the component itself. */
  lemma {:induction false} StaticStandsInHead(data: seq<Byte>, pos: nat, parts: seq<Part>, i: nat)
    requires i < |parts| && parts[i].Static? && At(data, pos, EncodeTuple(parts))
    ensures At(data, pos + HeadSize(parts, i), parts[i].bytes)
  {
    hide *;
    ComponentSlices(data, pos, parts, i);
    LastComponent(parts, i);
  }

  /** The head of a dynamic component is the offset at which its tail stands. */
  lemma {:induction false} HeadLandsOnTail(data: seq<Byte>, pos: nat, parts: seq<Part>, i: nat)
    requires i < |parts| && parts[i].Dynamic? && At(data, pos, EncodeTuple(parts))
    ensures At(data, pos + HeadSize(parts, i), WordBytes(TailStart(parts, i)))
    ensures At(data, pos + TailStart(parts, i), parts[i].bytes)
  {
    hide *;
    ComponentSlices(data, pos, parts, i);
    LastComponent(parts, i);
  }

  lemma NoTailsYet(parts: seq<Part>)
    ensures Tails(parts, 0) == []
  {
  }

  /**
   The tails tile the rest of the encoding: they start where the heads end, two different tails never
   overlap, each ends where the next dynamic one starts, and the last one ends with the encoding.
   */
  lemma TailsTile(parts: seq<Part>, i: nat, j: nat)
    requires i < j <= |parts|
    ensures TailStart(parts, 0) == HeadSize(parts, |parts|)
    ensures TailStart(parts, |parts|) == |EncodeTuple(parts)|
    ensures
      var size := if parts[i].Dynamic? then |parts[i].bytes| else 0;
      && TailStart(parts, i + 1) == TailStart(parts, i) + size
      && TailStart(parts, i) + size <= TailStart(parts, j)
  {
    hide *;
    TupleSizes(parts, 0);
    TupleSizes(parts, i);
    TupleSizes(parts, i + 1);
    TupleSizes(parts, j);
    LastComponent(parts, i);
    HeadsPrefix(parts, i, i + 1);
    HeadsPrefix(parts, i + 1, j);
    assert Tails(parts, 0) == [] by {
      NoTailsYet(parts);
    }
  }

  // ---------------------------------------------------------------------------------------------
  // The decoder
  // ---------------------------------------------------------------------------------------------

  function ReadWord(data: seq<Byte>, at: nat): Option<nat> {
    if at + 32 <= |data| then Some(FromBytes(data[at..at + 32])) else None
  }

  function DecodeAddressItems(data: seq<Byte>, at: nat, n: nat): Option<seq<Address>>
    decreases n
  {
    if n == 0 then Some([])
    else
      match (ReadWord(data, at), DecodeAddressItems(data, at + 32, n - 1))
      case (Some(a), Some(rest)) => if a < TWO_160 then Some([a] + rest) else None
      case _ => None
  }

  function DecodeAddresses(data: seq<Byte>, at: nat): Option<seq<Address>> {
    match ReadWord(data, at)
    case Some(n) => DecodeAddressItems(data, at + 32, n)
    case None => None
  }

  function DecodeRecord(data: seq<Byte>, at: nat): Option<MaterialRecord> {
    match (ReadWord(data, at), ReadWord(data, at + 32), ReadWord(data, at + 64), ReadWord(data, at + 96))
    case (Some(handle), Some(keyId), Some(digest), Some(offset)) =>
      (match DecodeAddresses(data, at + offset)
       case Some(senders) =>
         if handle < TWO_256 && keyId < TWO_256 && digest < TWO_256
         then Some(MaterialRecord(handle, keyId, digest, senders)) else None
       case None => None)
    case _ => None
  }

  /** The records whose offsets stand at `base + 32 * i` onwards; offsets count from `base`. */
  function DecodeRecordItems(data: seq<Byte>, base: nat, i: nat, n: nat): Option<seq<MaterialRecord>>
    requires i <= n
    decreases n - i
  {
    if i == n then Some([])
    else
      match (ReadWord(data, base + 32 * i), DecodeRecordItems(data, base, i + 1, n))
      case (Some(offset), Some(rest)) =>
        (match DecodeRecord(data, base + offset)
         case Some(r) => Some([r] + rest)
         case None => None)
      case _ => None
  }

  function DecodeRecords(data: seq<Byte>, at: nat): Option<seq<MaterialRecord>> {
    match ReadWord(data, at)
    case Some(n) => DecodeRecordItems(data, at + 32, 0, n)
    case None => None
  }

  function DecodeReturn(data: seq<Byte>): Option<seq<MaterialRecord>> {
    match ReadWord(data, 0)
    case Some(offset) => DecodeRecords(data, offset)
    case None => None
  }

  // ---------------------------------------------------------------------------------------------
  // Round trip
  // ---------------------------------------------------------------------------------------------

  lemma ReadBack(data: seq<Byte>, pos: nat, w: nat)
    requires At(data, pos, WordBytes(w)) && w < TWO_256
    ensures ReadWord(data, pos) == Some(w)
  {
    WordRoundTrip(w);
  }

  lemma {:induction false} WordHeadSize(words: seq<nat>, k: nat)
    requires k <= |words|
    ensures HeadSize(WordParts(words), k) == 32 * k && Tails(WordParts(words), k) == []
  {
    if k > 0 {
      WordHeadSize(words, k - 1);
    }
  }

  lemma {:induction false} RecordHeadSize(records: seq<MaterialRecord>, k: nat)
    requires k <= |records|
    ensures HeadSize(RecordParts(records), k) == 32 * k
  {
    hide EncodeRecord, RecordParts;
    if k > 0 {
      RecordHeadSize(records, k - 1);
    }
  }

  lemma {:induction false} AddressItemsDecode(data: seq<Byte>, at: nat, addresses: seq<Address>)
    requires forall i :: 0 <= i < |addresses| ==> ReadWord(data, at + 32 * i) == Some(addresses[i])
    ensures DecodeAddressItems(data, at, |addresses|) == Some(addresses)
    decreases |addresses|
  {
    if addresses != [] {
      var rest := addresses[1..];
      forall i | 0 <= i < |rest|
        ensures ReadWord(data, at + 32 + 32 * i) == Some(rest[i])
      {
        assert at + 32 + 32 * i == at + 32 * (i + 1);
        assert rest[i] == addresses[i + 1];
      }
      AddressItemsDecode(data, at + 32, rest);
      assert ReadWord(data, at + 32 * 0) == Some(addresses[0]);
      assert [addresses[0]] + rest == addresses;
    }
  }

  /** Where the length and the elements of an encoded word array stand. */
  lemma WordsRead(data: seq<Byte>, pos: nat, words: seq<nat>)
    requires At(data, pos, EncodeWords(words)) && |data| < TWO_256
    requires forall w :: w in words ==> w < TWO_256
    ensures ReadWord(data, pos) == Some(|words|) && pos + 32 + 32 * |words| <= |data|
    ensures forall i :: 0 <= i < |words| ==> ReadWord(data, pos + 32 + 32 * i) == Some(words[i])
  {
    hide WordBytes, ReadWord, HeadSize, Heads, Tails;
    var parts := WordParts(words);
    AtConcat(data, pos, WordBytes(|words|), EncodeTuple(parts));
    WordHeadSize(words, |words|);
    ReadBack(data, pos, |words|);
    forall i | 0 <= i < |words|
      ensures ReadWord(data, pos + 32 + 32 * i) == Some(words[i])
    {
      StaticStandsInHead(data, pos + 32, parts, i);
      WordHeadSize(words, i);
      assert words[i] in words;
      ReadBack(data, pos + 32 + 32 * i, words[i]);
    }
  }

  lemma AddressesDecode(data: seq<Byte>, pos: nat, addresses: seq<Address>)
    requires At(data, pos, EncodeWords(addresses)) && |data| < TWO_256
    ensures DecodeAddresses(data, pos) == Some(addresses)
  {
    hide EncodeWords, At, ReadWord, DecodeAddressItems;
    WordsRead(data, pos, addresses);
    AddressItemsDecode(data, pos + 32, addresses);
  }

  lemma FieldLayout(r: MaterialRecord)
    ensures
      var parts := FieldParts(r);
      && HeadSize(parts, 0) == 0 && HeadSize(parts, 1) == 32 && HeadSize(parts, 2) == 64
      && HeadSize(parts, 3) == 96 && HeadSize(parts, 4) == 128
      && TailStart(parts, 3) == 128
  {
    var parts := FieldParts(r);
    assert HeadSize(parts, 1) == HeadSize(parts, 0) + 32;
    assert HeadSize(parts, 2) == HeadSize(parts, 1) + 32;
    assert HeadSize(parts, 3) == HeadSize(parts, 2) + 32;
    assert HeadSize(parts, 4) == HeadSize(parts, 3) + 32;
    assert Tails(parts, 1) == [] && Tails(parts, 2) == [] && Tails(parts, 3) == [];
  }

  lemma RecordDecodes(data: seq<Byte>, pos: nat, r: MaterialRecord)
    requires At(data, pos, EncodeRecord(r)) && |data| < TWO_256
    ensures DecodeRecord(data, pos) == Some(r)
  {
    var parts := FieldParts(r);
    FieldLayout(r);
    StaticStandsInHead(data, pos, parts, 0);
    StaticStandsInHead(data, pos, parts, 1);
    StaticStandsInHead(data, pos, parts, 2);
    HeadLandsOnTail(data, pos, parts, 3);
    ReadBack(data, pos, r.ctHandle);
    ReadBack(data, pos + 32, r.keyId);
    ReadBack(data, pos + 64, r.digest);
    ReadBack(data, pos + 96, 128);
    AddressesDecode(data, pos + 128, r.senders);
  }

  lemma HeadReads(data: seq<Byte>, base: nat, parts: seq<Part>, i: nat)
    requires i < |parts| && parts[i].Dynamic? && At(data, base, EncodeTuple(parts)) && |data| < TWO_256
    ensures ReadWord(data, base + HeadSize(parts, i)) == Some(TailStart(parts, i))
  {
    hide *;
    HeadLandsOnTail(data, base, parts, i);
    AtBound(data, base + TailStart(parts, i), parts[i].bytes);
    ReadBack(data, base + HeadSize(parts, i), TailStart(parts, i));
  }

  lemma TailDecodes(data: seq<Byte>, base: nat, parts: seq<Part>, i: nat, r: MaterialRecord)
    requires i < |parts| && At(data, base, EncodeTuple(parts)) && |data| < TWO_256
    requires parts[i] == Dynamic(EncodeRecord(r))
    ensures DecodeRecord(data, base + TailStart(parts, i)) == Some(r)
  {
    hide *;
    HeadLandsOnTail(data, base, parts, i);
    RecordDecodes(data, base + TailStart(parts, i), r);
  }

  lemma {:induction false} RecordItemsDecode(
    data: seq<Byte>, base: nat, records: seq<MaterialRecord>, offsets: seq<nat>, i: nat)
    requires i <= |records| == |offsets|
    requires forall k :: 0 <= k < |records| ==> ReadWord(data, base + 32 * k) == Some(offsets[k])
    requires forall k :: 0 <= k < |records| ==> DecodeRecord(data, base + offsets[k]) == Some(records[k])
    ensures DecodeRecordItems(data, base, i, |records|) == Some(records[i..])
    decreases |records| - i
  {
    if i < |records| {
      RecordItemsDecode(data, base, records, offsets, i + 1);
      assert DecodeRecord(data, base + offsets[i]) == Some(records[i]);
      assert [records[i]] + records[i + 1..] == records[i..];
    } else {
      assert records[i..] == [];
    }
  }

  lemma RecordTupleDecodes(data: seq<Byte>, base: nat, parts: seq<Part>, records: seq<MaterialRecord>)
    requires parts == RecordParts(records)
    requires At(data, base, EncodeTuple(parts)) && |data| < TWO_256
    ensures DecodeRecordItems(data, base, 0, |records|) == Some(records)
  {
    hide *;
    var offsets := seq(|records|, k requires 0 <= k < |records| => TailStart(parts, k));
    forall k | 0 <= k < |records|
      ensures ReadWord(data, base + 32 * k) == Some(offsets[k])
      ensures DecodeRecord(data, base + offsets[k]) == Some(records[k])
    {
      RecordHeadSize(records, k);
      HeadReads(data, base, parts, k);
      TailDecodes(data, base, parts, k, records[k]);
    }
    RecordItemsDecode(data, base, records, offsets, 0);
    assert records[0..] == records;
  }

  lemma RecordsDecode(data: seq<Byte>, pos: nat, records: seq<MaterialRecord>)
    requires At(data, pos, EncodeRecords(records)) && |data| < TWO_256
    ensures DecodeRecords(data, pos) == Some(records)
  {
    hide EncodeTuple, RecordParts, WordBytes, DecodeRecordItems;
    var parts := RecordParts(records);
    AtConcat(data, pos, WordBytes(|records|), EncodeTuple(parts));
    RecordHeadSize(records, |records|);
    TupleSizes(parts, |records|);
    ReadBack(data, pos, |records|);
    RecordTupleDecodes(data, pos + 32, parts, records);
  }

  lemma ReturnIsOffsetThenRecords(records: seq<MaterialRecord>)
    ensures EncodeReturn(records) == WordBytes(32) + EncodeRecords(records)
  {
    hide EncodeRecords, WordBytes;
    var parts := [Dynamic(EncodeRecords(records))];
    assert HeadSize(parts, 1) == 32 && Heads(parts, 0) == [] && Tails(parts, 0) == [];
    assert Heads(parts, 1) == WordBytes(TailStart(parts, 0));
    assert Tails(parts, 1) == EncodeRecords(records);
  }

  /** Decoding what a getter returns gives back the records, for every list of records. */
  lemma {:induction false} ReturnRoundTrip(records: seq<MaterialRecord>)
    ensures |EncodeReturn(records)| < TWO_256 ==> DecodeReturn(EncodeReturn(records)) == Some(records)
  {
    var data := EncodeReturn(records);
    ReturnIsOffsetThenRecords(records);
    assert At(data, 0, WordBytes(32) + EncodeRecords(records));
    AtConcat(data, 0, WordBytes(32), EncodeRecords(records));
    if |data| < TWO_256 {
      ReadBack(data, 0, 32);
      RecordsDecode(data, 32, records);
    }
  }

  // ---------------------------------------------------------------------------------------------
  // The layout in words
  // ---------------------------------------------------------------------------------------------

  /**
   Where the words of an encoded result with one record stand: the offset of the array, its length, the offset of
   the record, its three words, the offset of the senders, their number, and the senders.
   */
  lemma {:induction false} OneRecordInWords(r: MaterialRecord)
    requires |EncodeReturn([r])| < TWO_256
    ensures
      var data := EncodeReturn([r]);
      && ReadWord(data, 0) == Some(32) && ReadWord(data, 32) == Some(1) && ReadWord(data, 64) == Some(32)
      && ReadWord(data, 96) == Some(r.ctHandle) && ReadWord(data, 128) == Some(r.keyId)
      && ReadWord(data, 160) == Some(r.digest) && ReadWord(data, 192) == Some(128)
      && ReadWord(data, 224) == Some(|r.senders|)
      && forall i :: 0 <= i < |r.senders| ==> ReadWord(data, 256 + 32 * i) == Some(r.senders[i])
  {
    hide EncodeReturn, EncodeRecords, EncodeTuple, EncodeRecord, EncodeWords, WordBytes, ReadWord, At;
    var data, parts := EncodeReturn([r]), RecordParts([r]);
    ReturnIsOffsetThenRecords([r]);
    OneRecord(r);
    WholeIsThere(data);
    AtConcat(data, 0, WordBytes(32), EncodeRecords([r]));
    ReadBack(data, 0, 32);
    AtConcat(data, 32, WordBytes(1), EncodeTuple(parts));
    ReadBack(data, 32, 1);
    HeadReads(data, 64, parts, 0);
    HeadLandsOnTail(data, 64, parts, 0);
    RecordInWords(data, 96, r);
  }

  lemma WholeIsThere(data: seq<Byte>)
    ensures At(data, 0, data)
  {
  }

  lemma OneRecord(r: MaterialRecord)
    ensures EncodeRecords([r]) == WordBytes(1) + EncodeTuple(RecordParts([r]))
    ensures RecordParts([r])[0] == Dynamic(EncodeRecord(r))
    ensures HeadSize(RecordParts([r]), 0) == 0 && TailStart(RecordParts([r]), 0) == 32
  {
    hide EncodeRecord, WordBytes;
    var parts := RecordParts([r]);
    assert HeadSize(parts, 1) == 32;
  }

  lemma RecordInWords(data: seq<Byte>, pos: nat, r: MaterialRecord)
    requires At(data, pos, EncodeRecord(r)) && |data| < TWO_256
    ensures ReadWord(data, pos) == Some(r.ctHandle) && ReadWord(data, pos + 32) == Some(r.keyId)
    ensures ReadWord(data, pos + 64) == Some(r.digest) && ReadWord(data, pos + 96) == Some(128)
    ensures ReadWord(data, pos + 128) == Some(|r.senders|)
    ensures forall i :: 0 <= i < |r.senders| ==> ReadWord(data, pos + 160 + 32 * i) == Some(r.senders[i])
  {
    hide WordBytes, ReadWord, EncodeWords;
    var parts := FieldParts(r);
    FieldLayout(r);
    StaticStandsInHead(data, pos, parts, 0);
    StaticStandsInHead(data, pos, parts, 1);
    StaticStandsInHead(data, pos, parts, 2);
    HeadLandsOnTail(data, pos, parts, 3);
    ReadBack(data, pos, r.ctHandle);
    ReadBack(data, pos + 32, r.keyId);
    ReadBack(data, pos + 64, r.digest);
    ReadBack(data, pos + 96, 128);
    WordsRead(data, pos + 128, r.senders);
  }
}
