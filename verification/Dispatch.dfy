/**
 Which function a call selector names: by binary search in the binding's sorted selector table, and
 by the split comparison tree at the head of the runtime code.
 */
module Dispatch {
  import opened Words
  import opened Wrappers

  datatype Function =
    | UpgradeInterfaceVersion
    | AddCiphertextMaterial
    | GetAddCiphertextMaterialConsensusTxSenders
    | GetCiphertextMaterials
    | GetSnsCiphertextMaterials
    | GetVersion
    | InitializeFromEmptyProxy
    | IsCiphertextMaterialAdded
    | ProxiableUUID
    | UpgradeToAndCall

  function SelectorOf(f: Function): seq<Byte> {
    match f
    case UpgradeInterfaceVersion => [173, 60, 177, 204]
    case AddCiphertextMaterial => [144, 243, 3, 84]
    case GetAddCiphertextMaterialConsensusTxSenders => [230, 246, 171, 148]
    case GetCiphertextMaterials => [85, 196, 217, 151]
    case GetSnsCiphertextMaterials => [161, 79, 137, 113]
    case GetVersion => [13, 142, 110, 44]
    case InitializeFromEmptyProxy => [57, 247, 56, 16]
    case IsCiphertextMaterialAdded => [45, 220, 154, 111]
    case ProxiableUUID => [82, 209, 144, 45]
    case UpgradeToAndCall => [79, 30, 242, 134]
  }

  const SELECTORS: seq<seq<Byte>> := [
    [13, 142, 110, 44],
    [45, 220, 154, 111],
    [57, 247, 56, 16],
    [79, 30, 242, 134],
    [82, 209, 144, 45],
    [85, 196, 217, 151],
    [144, 243, 3, 84],
    [161, 79, 137, 113],
    [173, 60, 177, 204],
    [230, 246, 171, 148]
  ]

  /** The decode shims, in the order of the table. */
  const SHIMS: seq<Function> := [
    GetVersion, IsCiphertextMaterialAdded, InitializeFromEmptyProxy, UpgradeToAndCall, ProxiableUUID,
    GetCiphertextMaterials, AddCiphertextMaterial, GetSnsCiphertextMaterials, UpgradeInterfaceVersion,
    GetAddCiphertextMaterialConsensusTxSenders
  ]

  /** The order of byte strings: by the first byte in which they differ. */
  predicate Before(a: seq<Byte>, b: seq<Byte>)
    requires |a| == |b|
  {
    a != [] && (a[0] < b[0] || (a[0] == b[0] && Before(a[1..], b[1..])))
  }

  /** Byte order is the order of the numbers the bytes spell. */
  lemma {:induction false} BeforeIsNumeric(a: seq<Byte>, b: seq<Byte>)
    requires |a| == |b|
    ensures Before(a, b) <==> FromBytes(a) < FromBytes(b)
    decreases |a|
  {
    if a != [] {
      BeforeIsNumeric(a[1..], b[1..]);
      FirstByte(a);
      FirstByte(b);
      FromBytesBound(a[1..]);
      FromBytesBound(b[1..]);
      var p := Pow256(|a| - 1);
      if a[0] < b[0] {
        Scale(a[0], b[0], p);
      } else if b[0] < a[0] {
        Scale(b[0], a[0], p);
      }
    }
  }

  lemma Scale(x: nat, y: nat, p: nat)
    requires x < y
    ensures x * p + p <= y * p
  {
    assert (x + 1) * p <= y * p;
  }

  lemma FirstByte(a: seq<Byte>)
    requires a != []
    ensures FromBytes(a) == a[0] * Pow256(|a| - 1) + FromBytes(a[1..])
  {
    assert a == [a[0]] + a[1..];
    FromBytesConcat([a[0]], a[1..]);
    assert FromBytes([a[0]]) == a[0] by {
      assert [a[0]][..0] == [];
    }
  }

  ghost predicate StrictlySorted(table: seq<seq<Byte>>) {
    && (forall i :: 0 <= i < |table| ==> |table[i]| == 4)
    && forall i, j :: 0 <= i < j < |table| ==> FromBytes(table[i]) < FromBytes(table[j])
  }

  /** slice::binary_search with the order of byte strings. */
  method BinarySearch(table: seq<seq<Byte>>, key: seq<Byte>) returns (r: Option<nat>)
    requires StrictlySorted(table) && |key| == 4
    ensures match r
      case Some(i) => i < |table| && table[i] == key
      case None => key !in table
  {
    var lo, hi := 0, |table|;
    while lo < hi
      invariant 0 <= lo <= hi <= |table|
      invariant forall i :: 0 <= i < lo ==> FromBytes(table[i]) < FromBytes(key)
      invariant forall i :: hi <= i < |table| ==> FromBytes(key) < FromBytes(table[i])
    {
      var mid := (lo + hi) / 2;
      BeforeIsNumeric(table[mid], key);
      BeforeIsNumeric(key, table[mid]);
      if table[mid] == key {
        return Some(mid);
      } else if Before(table[mid], key) {
        lo := mid + 1;
      } else {
        ToFromBytes(table[mid]);
        ToFromBytes(key);
        hi := mid;
      }
    }
    return None;
  }

  lemma FourBytes(b: seq<Byte>)
    requires |b| == 4
    ensures FromBytes(b) == 256 * (256 * (256 * (b[0] as int) + b[1]) + b[2]) + b[3]
  {
    assert b[..3][..2] == b[..2] && b[..2][..1] == b[..1] && b[..1][..0] == [];
    assert FromBytes(b[..1]) == b[0];
    assert FromBytes(b[..2]) == 256 * FromBytes(b[..1]) + b[1];
    assert FromBytes(b[..3]) == 256 * FromBytes(b[..2]) + b[2];
  }

  /** The numbers in the comparison tree are the binding's selectors. */
  lemma SelectorSpells(f: Function)
    ensures FromBytes(SelectorOf(f)) == SelectorNumber(f)
  {
    FourBytes(SelectorOf(f));
  }

  /** Entry by entry, the shim at an index is the one that owns the selector at that index. */
  lemma ShimsOwnSelectors()
    ensures |SELECTORS| == |SHIMS| == 10
    ensures forall i :: 0 <= i < 10 ==> SELECTORS[i] == SelectorOf(SHIMS[i])
  {
  }

  lemma ShimsAscend()
    ensures forall i, j :: 0 <= i < j < |SHIMS| ==> SelectorNumber(SHIMS[i]) < SelectorNumber(SHIMS[j])
  {
  }

  lemma TableIsSorted()
    ensures StrictlySorted(SELECTORS)
  {
    hide FromBytes;
    ShimsOwnSelectors();
    forall i | 0 <= i < |SELECTORS|
      ensures FromBytes(SELECTORS[i]) == SelectorNumber(SHIMS[i])
    {
      SelectorSpells(SHIMS[i]);
    }
    ShimsAscend();
  }

  function SelectorNumber(f: Function): nat {
    match f
    case UpgradeInterfaceVersion => 0xad3cb1cc
    case AddCiphertextMaterial => 0x90f30354
    case GetAddCiphertextMaterialConsensusTxSenders => 0xe6f6ab94
    case GetCiphertextMaterials => 0x55c4d997
    case GetSnsCiphertextMaterials => 0xa14f8971
    case GetVersion => 0x0d8e6e2c
    case InitializeFromEmptyProxy => 0x39f73810
    case IsCiphertextMaterialAdded => 0x2ddc9a6f
    case ProxiableUUID => 0x52d1902d
    case UpgradeToAndCall => 0x4f1ef286
  }

  /** The search finds a selector iff it is listed, and its index picks the shim that owns it. */
  method Decode(selector: seq<Byte>) returns (r: Option<Function>)
    requires |selector| == 4
    ensures forall f :: r == Some(f) <==> selector == SelectorOf(f)
  {
    TableIsSorted();
    var index := BinarySearch(SELECTORS, selector);
    match index
    case Some(i) =>
      r := Some(SHIMS[i]);
    case None =>
      forall f ensures selector != SelectorOf(f) {
        assert SelectorOf(f) in SELECTORS;
      }
      r := None;
  }

  /** pc 0: one split at 0x55c4d997, then equality tests in turn. */
  function Tree(selector: nat): Option<Function> {
    if 0x55c4d997 > selector then
      if selector == 0x0d8e6e2c then Some(GetVersion)
      else if selector == 0x2ddc9a6f then Some(IsCiphertextMaterialAdded)
      else if selector == 0x39f73810 then Some(InitializeFromEmptyProxy)
      else if selector == 0x4f1ef286 then Some(UpgradeToAndCall)
      else if selector == 0x52d1902d then Some(ProxiableUUID)
      else None
    else if selector == 0x55c4d997 then Some(GetCiphertextMaterials)
    else if selector == 0x90f30354 then Some(AddCiphertextMaterial)
    else if selector == 0xa14f8971 then Some(GetSnsCiphertextMaterials)
    else if selector == 0xad3cb1cc then Some(UpgradeInterfaceVersion)
    else if selector == 0xe6f6ab94 then Some(GetAddCiphertextMaterialConsensusTxSenders)
    else None
  }

  lemma TreeTests(n: nat, f: Function)
    ensures Tree(n) == Some(f) <==> n == SelectorNumber(f)
  {
  }

  /** The runtime code selects the function whose selector the binding encodes, for all 2^32 selectors. */
  lemma TreeSelectsOwner(selector: seq<Byte>, f: Function)
    requires |selector| == 4
    ensures Tree(FromBytes(selector)) == Some(f) <==> selector == SelectorOf(f)
  {
    hide FromBytes, ToBytes;
    SelectorSpells(f);
    TreeTests(FromBytes(selector), f);
    ToFromBytes(selector);
    ToFromBytes(SelectorOf(f));
  }
}
