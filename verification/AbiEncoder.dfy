/**
 The encoder of the getters' results as the runtime code runs it: nested loops that write words
 into memory, keeping a head pointer and a tail pointer. What it writes is the specified encoding.
 */
module AbiEncoder {
  import opened Words
  import opened AbiEncoding

  /** Nothing outside [lo, hi) changed. */
  ghost predicate SameOutside(s: seq<Byte>, t: seq<Byte>, lo: nat, hi: nat) {
    |s| == |t| && forall i :: 0 <= i < |s| && !(lo <= i < hi) ==> s[i] == t[i]
  }

  lemma SameOutsideBoth(s: seq<Byte>, t: seq<Byte>, u: seq<Byte>, lo: nat, mid: nat, pos: nat, end: nat, hi: nat)
    requires SameOutside(s, t, lo, mid) && SameOutside(t, u, pos, end)
    requires lo <= pos && mid <= hi && end <= hi
    ensures SameOutside(s, u, lo, hi)
  {
  }

  /** What stands outside the written range still stands. */
  lemma AtFrame(s: seq<Byte>, t: seq<Byte>, pos: nat, e: seq<Byte>, lo: nat, hi: nat)
    requires At(s, pos, e) && SameOutside(s, t, lo, hi)
    requires pos + |e| <= lo || hi <= pos
    ensures At(t, pos, e)
  {
  }

  /** MSTORE. */
  method StoreWord(mem: array<Byte>, at: nat, w: nat)
    requires at + 32 <= mem.Length
    modifies mem
    ensures At(mem[..], at, WordBytes(w))
    ensures SameOutside(old(mem[..]), mem[..], at, at + 32)
  {
    hide WordBytes;
    var bytes := WordBytes(w);
    forall i | 0 <= i < 32 {
      mem[at + i] := bytes[i];
    }
    assert mem[..][at..at + 32] == bytes;
  }

  lemma AddressTuple(addresses: seq<Address>)
    ensures EncodeWords(addresses) == WordBytes(|addresses|) + Heads(WordParts(addresses), |addresses|)
    ensures |EncodeWords(addresses)| == 32 + 32 * |addresses|
  {
    hide WordBytes;
    WordHeadSize(addresses, |addresses|);
  }

  /** The mask put on every address before it is stored; an address already fits. */
  function LowBits160(w: nat): (a: Address)
    ensures w < TWO_160 ==> a == w
  {
    w % TWO_160
  }

  /** pc 0x1eb7: an address array. */
  method EncodeAddressArray(mem: array<Byte>, addresses: seq<Address>, start: nat) returns (pos: nat)
    requires start + |EncodeWords(addresses)| <= mem.Length
    modifies mem
    ensures pos == start + |EncodeWords(addresses)|
    ensures At(mem[..], start, EncodeWords(addresses))
    ensures SameOutside(old(mem[..]), mem[..], start, pos)
  {
    hide *;
    ghost var parts := WordParts(addresses);
    AddressTuple(addresses);
    StoreWord(mem, start, |addresses|);
    pos := start + 32;
    WordHeadSize(addresses, 0);
    NoHeadsYet(mem[..], pos, parts);
    for i := 0 to |addresses|
      invariant pos == start + 32 + 32 * i
      invariant At(mem[..], start, WordBytes(|addresses|))
      invariant At(mem[..], start + 32, Heads(parts, i))
      invariant SameOutside(old(mem[..]), mem[..], start, pos)
    {
      ghost var before := mem[..];
      StoreWord(mem, pos, LowBits160(addresses[i]));
      WordHeadSize(addresses, i);
      HeadStored(before, mem[..], start, WordBytes(|addresses|), parts, i);
      SameOutsideBoth(old(mem[..]), before, mem[..], start, pos, pos, pos + 32, pos + 32);
      pos := pos + 32;
    }
    AtConcat(mem[..], start, WordBytes(|addresses|), Heads(parts, |addresses|));
  }

  lemma NoHeadsYet(s: seq<Byte>, pos: nat, parts: seq<Part>)
    requires pos <= |s|
    ensures At(s, pos, Heads(parts, 0)) && At(s, pos, Tails(parts, 0))
    ensures HeadSize(parts, 0) == 0 && Tails(parts, 0) == []
  {
  }

  /** The bytes of head `i` behind the first `i` heads make the first `i + 1` heads. */
  lemma NextHead(s: seq<Byte>, pos: nat, parts: seq<Part>, i: nat)
    requires i < |parts| && At(s, pos, Heads(parts, i))
    requires At(s, pos + HeadSize(parts, i),
                if parts[i].Static? then parts[i].bytes else WordBytes(TailStart(parts, i)))
    ensures At(s, pos, Heads(parts, i + 1))
  {
    hide WordBytes;
    AtConcat(s, pos, Heads(parts, i),
             if parts[i].Static? then parts[i].bytes else WordBytes(TailStart(parts, i)));
  }

  lemma NextTail(s: seq<Byte>, pos: nat, parts: seq<Part>, i: nat)
    requires i < |parts| && parts[i].Dynamic? && At(s, pos, Tails(parts, i))
    requires At(s, pos + |Tails(parts, i)|, parts[i].bytes)
    ensures At(s, pos, Tails(parts, i + 1))
    ensures |Tails(parts, i + 1)| == |Tails(parts, i)| + |parts[i].bytes|
  {
  }

  /** Storing head `i` behind the length word and the first `i` heads. */
  lemma HeadStored(s: seq<Byte>, t: seq<Byte>, start: nat, length: seq<Byte>, parts: seq<Part>, i: nat)
    requires i < |parts| && |length| == 32
    requires parts[i].Static? ==> |parts[i].bytes| == 32
    requires At(s, start, length) && At(s, start + 32, Heads(parts, i))
    requires
      var head := start + 32 + HeadSize(parts, i);
      && SameOutside(s, t, head, head + 32)
      && At(t, head, if parts[i].Static? then parts[i].bytes else WordBytes(TailStart(parts, i)))
    ensures At(t, start, length) && At(t, start + 32, Heads(parts, i + 1))
  {
    hide *;
    var head := start + 32 + HeadSize(parts, i);
    AtFrame(s, t, start, length, head, head + 32);
    AtFrame(s, t, start + 32, Heads(parts, i), head, head + 32);
    NextHead(t, start + 32, parts, i);
  }

  // ---------------------------------------------------------------------------------------------
  // Structs and arrays of structs
  // ---------------------------------------------------------------------------------------------

  lemma FourWords(r: MaterialRecord)
    ensures EncodeRecord(r) ==
      WordBytes(r.ctHandle) + WordBytes(r.keyId) + WordBytes(r.digest) + WordBytes(128) + EncodeWords(r.senders)
  {
    var parts := FieldParts(r);
    FieldLayout(r);
    hide WordBytes, EncodeWords;
    assert Heads(parts, 1) == WordBytes(r.ctHandle);
    assert Heads(parts, 2) == Heads(parts, 1) + WordBytes(r.keyId);
    assert Heads(parts, 3) == Heads(parts, 2) + WordBytes(r.digest);
    assert Heads(parts, 4) == Heads(parts, 3) + WordBytes(128);
    assert |Tails(parts, 3)| == 0;
    assert Tails(parts, 4) == EncodeWords(r.senders);
  }

  /** A word, then another, behind what stands at `pos`. */
  lemma WordBehind(s: seq<Byte>, t: seq<Byte>, pos: nat, e: seq<Byte>, word: seq<Byte>)
    requires At(s, pos, e) && SameOutside(s, t, pos + |e|, pos + |e| + |word|)
    requires At(t, pos + |e|, word)
    ensures At(t, pos, e + word)
  {
  }

  /** pc 0x1f13: a struct of three static fields and an address array. */
  method EncodeStruct(mem: array<Byte>, r: MaterialRecord, pos: nat) returns (tail: nat)
    requires pos + |EncodeRecord(r)| <= mem.Length
    modifies mem
    ensures tail == pos + |EncodeRecord(r)|
    ensures At(mem[..], pos, EncodeRecord(r))
    ensures SameOutside(old(mem[..]), mem[..], pos, tail)
  {
    hide *;
    FourWords(r);
    var w0, w1, w2 := WordBytes(r.ctHandle), WordBytes(r.keyId), WordBytes(r.digest);
    tail := pos + 0x80;
    StoreWord(mem, pos, r.ctHandle);
    ghost var m0 := mem[..];
    StoreWord(mem, pos + 0x20, r.keyId);
    ghost var m1 := mem[..];
    WordBehind(m0, m1, pos, w0, w1);
    SameOutsideBoth(old(mem[..]), m0, m1, pos, pos + 0x20, pos + 0x20, pos + 0x40, pos + 0x40);
    StoreWord(mem, pos + 0x40, r.digest);
    ghost var m2 := mem[..];
    WordBehind(m1, m2, pos, w0 + w1, w2);
    SameOutsideBoth(old(mem[..]), m1, m2, pos, pos + 0x40, pos + 0x40, pos + 0x60, pos + 0x60);
    StoreWord(mem, pos + 0x60, tail - pos);
    ghost var m3 := mem[..];
    WordBehind(m2, m3, pos, w0 + w1 + w2, WordBytes(128));
    SameOutsideBoth(old(mem[..]), m2, m3, pos, pos + 0x60, pos + 0x60, pos + 0x80, pos + 0x80);
    tail := EncodeAddressArray(mem, r.senders, tail);
    WordBehind(m3, mem[..], pos, w0 + w1 + w2 + WordBytes(128), EncodeWords(r.senders));
    SameOutsideBoth(old(mem[..]), m3, mem[..], pos, pos + 0x80, pos + 0x80, tail, tail);
  }

  /** Encoding element `i` at the tail pointer, behind the heads and the first `i` tails. */
  lemma TailStored(s: seq<Byte>, t: seq<Byte>, start: nat, length: seq<Byte>, parts: seq<Part>, i: nat)
    requires i < |parts| && parts[i].Dynamic? && |length| == 32
    requires At(s, start, length) && At(s, start + 32, Heads(parts, i + 1))
    requires At(s, start + 32 + HeadSize(parts, |parts|), Tails(parts, i))
    requires
      var tail := start + 32 + TailStart(parts, i);
      At(t, tail, parts[i].bytes) && SameOutside(s, t, tail, tail + |parts[i].bytes|)
    ensures At(t, start, length) && At(t, start + 32, Heads(parts, i + 1))
    ensures At(t, start + 32 + HeadSize(parts, |parts|), Tails(parts, i + 1))
    ensures TailStart(parts, i + 1) == TailStart(parts, i) + |parts[i].bytes|
  {
    hide *;
    var tail := start + 32 + TailStart(parts, i);
    TupleSizes(parts, i);
    TupleSizes(parts, i + 1);
    HeadsPrefix(parts, i + 1, |parts|);
    AtFrame(s, t, start, length, tail, tail + |parts[i].bytes|);
    AtFrame(s, t, start + 32, Heads(parts, i + 1), tail, tail + |parts[i].bytes|);
    AtFrame(s, t, start + 32 + HeadSize(parts, |parts|), Tails(parts, i), tail, tail + |parts[i].bytes|);
    NextTail(t, start + 32 + HeadSize(parts, |parts|), parts, i);
  }

  /** Storing head `i` leaves the tails alone. */
  lemma HeadMissesTails(s: seq<Byte>, t: seq<Byte>, start: nat, parts: seq<Part>, i: nat)
    requires i < |parts| && parts[i].Dynamic?
    requires At(s, start + 32 + HeadSize(parts, |parts|), Tails(parts, i))
    requires SameOutside(s, t, start + 32 + HeadSize(parts, i), start + 32 + HeadSize(parts, i) + 32)
    ensures At(t, start + 32 + HeadSize(parts, |parts|), Tails(parts, i))
  {
    hide *;
    TailFits(parts, i);
    var head := start + 32 + HeadSize(parts, i);
    AtFrame(s, t, start + 32 + HeadSize(parts, |parts|), Tails(parts, i), head, head + 32);
  }

  lemma RecordsSplit(records: seq<MaterialRecord>)
    ensures
      var parts := RecordParts(records);
      && EncodeRecords(records) == WordBytes(|records|) + (Heads(parts, |records|) + Tails(parts, |records|))
      && |EncodeRecords(records)| == 32 + TailStart(parts, |records|)
      && TailStart(parts, 0) == 32 * |records|
      && HeadSize(parts, |records|) == 32 * |records|
  {
    hide WordBytes, RecordParts;
    TupleSizes(RecordParts(records), 0);
    RecordHeadSize(records, |records|);
    NoTailsYet(RecordParts(records));
  }

  lemma TailFits(parts: seq<Part>, i: nat)
    requires i < |parts| && parts[i].Dynamic?
    ensures TailStart(parts, i) + |parts[i].bytes| <= TailStart(parts, |parts|)
    ensures HeadSize(parts, i) + 32 <= HeadSize(parts, |parts|) <= TailStart(parts, i)
  {
    TailsTile(parts, i, |parts|);
    HeadsPrefix(parts, i + 1, |parts|);
    assert HeadSize(parts, i + 1) == HeadSize(parts, i) + 32;
    TupleSizes(parts, i);
  }

  /** pc 0x1f92: the head pointer walks up the offsets while the tail pointer runs ahead of it. */
  method EncodeRecordArray(mem: array<Byte>, records: seq<MaterialRecord>, start: nat) returns (tail: nat)
    requires start + |EncodeRecords(records)| <= mem.Length
    modifies mem
    ensures tail == start + |EncodeRecords(records)|
    ensures At(mem[..], start, EncodeRecords(records))
    ensures SameOutside(old(mem[..]), mem[..], start, tail)
  {
    ghost var parts := RecordParts(records);
    ghost var n := |records|;
    hide *;
    RecordsSplit(records);
    StoreWord(mem, start, |records|);
    var pos := start + 32;
    var headStart := pos;
    tail := pos + 32 * |records|;
    NoHeadsYet(mem[..], pos, parts);
    NoTailsThere(mem[..], headStart + 32 * n, parts);
    SameOutsideBoth(old(mem[..]), mem[..], mem[..], start, start + 32, start + 32, tail, tail);
    for i := 0 to |records|
      invariant pos == headStart + 32 * i && tail == headStart + TailStart(parts, i)
      invariant headStart + 32 * n <= tail
      invariant At(mem[..], start, WordBytes(n))
      invariant At(mem[..], headStart, Heads(parts, i))
      invariant At(mem[..], headStart + HeadSize(parts, n), Tails(parts, i))
      invariant SameOutside(old(mem[..]), mem[..], start, tail)
    {
      ghost var m0 := mem[..];
      TailFits(parts, i);
      RecordHeadSize(records, i);
      StoreWord(mem, pos, tail - headStart);
      ghost var m1 := mem[..];
      HeadStored(m0, m1, start, WordBytes(n), parts, i);
      HeadMissesTails(m0, m1, start, parts, i);
      SameOutsideBoth(old(mem[..]), m0, m1, start, tail, pos, pos + 32, tail);
      ghost var before := tail;
      tail := EncodeStruct(mem, records[i], tail);
      TailStored(m1, mem[..], start, WordBytes(n), parts, i);
      SameOutsideBoth(old(mem[..]), m1, mem[..], start, before, before, tail, tail);
      pos := pos + 32;
    }
    AtConcat(mem[..], headStart, Heads(parts, n), Tails(parts, n));
    AtConcat(mem[..], start, WordBytes(n), Heads(parts, n) + Tails(parts, n));
  }

  lemma NoTailsThere(s: seq<Byte>, pos: nat, parts: seq<Part>)
    requires pos <= |s|
    ensures At(s, pos, Tails(parts, 0))
  {
  }

  /** pc 0x2005: the data a getter returns, from `start` to the returned end. */
  method EncodeReturnData(mem: array<Byte>, records: seq<MaterialRecord>, start: nat) returns (end: nat)
    requires start + |EncodeReturn(records)| <= mem.Length
    modifies mem
    ensures end == start + |EncodeReturn(records)|
    ensures At(mem[..], start, EncodeReturn(records))
    ensures SameOutside(old(mem[..]), mem[..], start, end)
  {
    hide *;
    ReturnIsOffsetThenRecords(records);
    end := start + 32;
    StoreWord(mem, start, end - start);
    ghost var before := mem[..];
    end := EncodeRecordArray(mem, records, end);
    WordBehind(before, mem[..], start, WordBytes(32), EncodeRecords(records));
    SameOutsideBoth(old(mem[..]), before, mem[..], start, start + 32, start + 32, end, end);
  }
}
