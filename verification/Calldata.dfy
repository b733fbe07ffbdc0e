/**
 The decoder of a `bytes32[]` argument as the runtime code runs it: machine arithmetic that wraps at
 2^256, one signed comparison, and loads beyond the end of calldata that read zeros.
 */
module Calldata {
  import opened Words
  import opened Wrappers
  import opened AbiEncoding

  const MAX_OFFSET: nat := 0xffff_ffff_ffff_ffff

  function Add(a: Word, b: Word): Word { (a + b) % TWO_256 }
  function Sub(a: Word, b: Word): Word { (a - b) % TWO_256 }
  function Mul(a: Word, b: Word): Word { (a * b) % TWO_256 }

  /** SLT: words from 2^255 up are negative. */
  predicate SignedLess(a: Word, b: Word) {
    (if a < TWO_255 then a else a - TWO_256) < (if b < TWO_255 then b else b - TWO_256)
  }

  function PaddedByte(data: seq<Byte>, at: nat): Byte {
    if at < |data| then data[at] else 0
  }

  function PaddedBytes(data: seq<Byte>, at: nat): (b: seq<Byte>)
    ensures |b| == 32 && forall i :: 0 <= i < 32 ==> b[i] == PaddedByte(data, at + i)
  {
    seq<Byte>(32, i requires 0 <= i < 32 => PaddedByte(data, at + i))
  }

  /** CALLDATALOAD: 32 bytes from `at`, zeros where calldata has ended. */
  function Load(data: seq<Byte>, at: Word): Word {
    FromBytesBound(PaddedBytes(data, at));
    Pow256Word();
    FromBytes(PaddedBytes(data, at))
  }

  /** A decoded array argument: its first element's position and its length. */
  datatype Span = Span(pos: Word, length: nat)

  /** pc 0x1d6c. */
  function DecodeArray(data: seq<Byte>, pos: Word, end: Word): Option<Span> {
    if !SignedLess(Add(pos, 0x1f), end) then None
    else
      var length := Load(data, pos);
      if length > MAX_OFFSET then None
      else
        var first := Add(pos, 0x20);
        if Add(first, Mul(length, 0x20)) > end then None else Some(Span(first, length))
  }

  /** pc 0x1dc1, called with the arguments that follow the four selector bytes. */
  function DecodeHandles(data: seq<Byte>): Option<Span>
    requires 4 <= |data| < TWO_256
  {
    if SignedLess(Sub(|data|, 4), 0x20) then None
    else
      var offset := Load(data, 4);
      if offset > MAX_OFFSET then None else DecodeArray(data, Add(4, offset), |data|)
  }

  /** The elements the getters load from an accepted span. */
  function Elements(data: seq<Byte>, span: Span): (words: seq<Word>)
    ensures |words| == span.length
  {
    seq(span.length, i requires 0 <= i < span.length => Load(data, Add(span.pos, Mul(0x20, i % TWO_256))))
  }

  lemma LoadInside(data: seq<Byte>, at: Word)
    requires at + 32 <= |data|
    ensures ReadWord(data, at) == Some(Load(data, at))
  {
    assert PaddedBytes(data, at) == data[at..at + 32];
  }

  /**
   What the decoder accepts, in unbounded arithmetic: calldata that holds the offset word, the length
   word and all elements, with offset and length below 2^64. Wrap-around and the signed comparison
   change nothing, for calldata of every size the machine could be given.
   */
  lemma {:induction false} AcceptsIffInside(data: seq<Byte>)
    requires 4 <= |data| < TWO_256
    ensures
      var offset := Load(data, 4);
      var length := Load(data, (4 + offset) % TWO_256);
      DecodeHandles(data) ==
        if 36 <= |data| < TWO_255 && offset < TWO_64 && 4 + offset + 32 <= |data|
           && length < TWO_64 && 4 + offset + 32 + 32 * length <= |data|
        then Some(Span(4 + offset + 32, length))
        else None
  {
    hide Load, DecodeArray;
    var offset := Load(data, 4);
    if offset < TWO_64 {
      assert Add(4, offset) == 4 + offset;
      ArrayAcceptsIff(data, 4 + offset);
    }
  }

  lemma {:induction false} ArrayAcceptsIff(data: seq<Byte>, pos: nat)
    requires pos < 4 + TWO_64 && |data| < TWO_256
    ensures
      var length := Load(data, pos);
      DecodeArray(data, pos, |data|) ==
        if |data| < TWO_255 && pos + 32 <= |data| && length < TWO_64 && pos + 32 + 32 * length <= |data|
        then Some(Span(pos + 32, length))
        else None
  {
    hide Load;
    var length := Load(data, pos);
    if length < TWO_64 {
      assert Mul(length, 0x20) == 32 * length;
    }
  }

  lemma ElementPosition(pos: nat, i: nat)
    requires pos + 32 * i + 32 < TWO_256
    ensures Add(pos, Mul(0x20, i % TWO_256)) == pos + 32 * i
  {
    assert i % TWO_256 == i;
  }

  lemma ElementInside(data: seq<Byte>, span: Span, i: nat)
    requires i < span.length && span.pos + 32 * span.length <= |data| < TWO_256 - 32
    ensures ReadWord(data, span.pos + 32 * i) == Some(Elements(data, span)[i])
  {
    hide Load, ReadWord, Add, Mul;
    ElementPosition(span.pos, i);
    LoadInside(data, span.pos + 32 * i);
  }

  /** Every element of an accepted span lies inside calldata and is read where the encoding puts it. */
  lemma {:induction false} AcceptedElementsInside(data: seq<Byte>, i: nat)
    requires 4 <= |data| < TWO_256 && DecodeHandles(data).Some?
    requires i < DecodeHandles(data).value.length
    ensures
      var span := DecodeHandles(data).value;
      && span.pos + 32 * i + 32 <= |data|
      && ReadWord(data, span.pos + 32 * i) == Some(Elements(data, span)[i])
  {
    hide Load, DecodeHandles, ReadWord, Elements;
    AcceptsIffInside(data);
    ElementInside(data, DecodeHandles(data).value, i);
  }

  /** A canonical call: four selector bytes, then the encoded list of handles. */
  function EncodeCall(selector: seq<Byte>, handles: seq<Word>): seq<Byte> {
    selector + EncodeTuple([Dynamic(EncodeWords(handles))])
  }

  lemma CallLayout(selector: seq<Byte>, handles: seq<Word>)
    requires |selector| == 4
    ensures EncodeCall(selector, handles) == selector + (WordBytes(32) + EncodeWords(handles))
    ensures |EncodeCall(selector, handles)| == 68 + 32 * |handles|
  {
    hide WordBytes;
    var parts := [Dynamic(EncodeWords(handles))];
    assert HeadSize(parts, 1) == 32 && Heads(parts, 0) == [] && Tails(parts, 0) == [];
    assert Heads(parts, 1) == WordBytes(TailStart(parts, 0));
    assert Tails(parts, 1) == EncodeWords(handles);
    WordHeadSize(handles, |handles|);
  }

  lemma CallReads(selector: seq<Byte>, handles: seq<Word>)
    requires |selector| == 4 && |EncodeCall(selector, handles)| < TWO_255
    ensures
      var data := EncodeCall(selector, handles);
      && ReadWord(data, 4) == Some(32) && ReadWord(data, 36) == Some(|handles|)
      && forall i :: 0 <= i < |handles| ==> ReadWord(data, 68 + 32 * i) == Some(handles[i])
  {
    var data := EncodeCall(selector, handles);
    hide EncodeCall, ReadWord, WordBytes, EncodeWords;
    CallLayout(selector, handles);
    assert At(data, 4, WordBytes(32) + EncodeWords(handles));
    AtConcat(data, 4, WordBytes(32), EncodeWords(handles));
    ReadBack(data, 4, 32);
    WordsRead(data, 36, handles);
  }

  /** A canonical call is accepted iff its length fits 64 bits, and then it decodes to its handles. */
  lemma {:induction false} CanonicalCallDecodes(selector: seq<Byte>, handles: seq<Word>)
    requires |selector| == 4 && |EncodeCall(selector, handles)| < TWO_255
    ensures
      var data := EncodeCall(selector, handles);
      && (DecodeHandles(data).Some? <==> |handles| < TWO_64)
      && (DecodeHandles(data).Some? ==> Elements(data, DecodeHandles(data).value) == handles)
  {
    hide EncodeCall, Load, Elements, ReadWord, DecodeHandles;
    var data := EncodeCall(selector, handles);
    CallLayout(selector, handles);
    CallReads(selector, handles);
    LoadInside(data, 4);
    LoadInside(data, 36);
    AcceptsIffInside(data);
    if |handles| < TWO_64 {
      var span := DecodeHandles(data).value;
      forall i | 0 <= i < |handles|
        ensures Elements(data, span)[i] == handles[i]
      {
        AcceptedElementsInside(data, i);
      }
    }
  }
}
