/** The counters of the mock contract: each starts at its request type, shifted to the top byte of a word. */
module RequestIds {
  import opened Words
  import opened MockScan
  import opened MockFunctions
  import opened MockContract

  const SHIFTED: nat := 0x100_0000_0000_0000_0000_0000_0000_0000_0000_0000_0000_0000_0000_0000_0000_0000

  /** counter.replace(/Counter$/, "") */
  function CleanName(counter: string): string {
    if |counter| >= 7 && counter[|counter| - 7..] == "Counter" then counter[..|counter| - 7] else counter
  }

  /** KMS_REQUEST_TYPES_MAPPING */
  const REQUEST_TYPES: map<string, nat> := map[
    "publicDecryption" := 1, "userDecryption" := 2, "prepKeygen" := 3, "key" := 4, "crs" := 5, "keyReshare" := 6
  ]

  predicate IsRequestCounter(counter: string) {
    CleanName(counter) in REQUEST_TYPES
  }

  function RequestType(counter: string): (t: nat)
    requires IsRequestCounter(counter)
    ensures 1 <= t <= 6
  {
    REQUEST_TYPES[CleanName(counter)]
  }

  /** getCounterInitialValue: `type << 248`, or 0 for a counter of no request type. */
  function InitialValue(counter: string): nat {
    if IsRequestCounter(counter) then RequestType(counter) * SHIFTED else 0
  }

  /** SHIFTED is what `<< 248` multiplies by. */
  lemma ShiftedIsTwoTo248()
    ensures SHIFTED == Pow256(31) && 256 * SHIFTED == TWO_256
  {
    Pow256Word();
    Pow256Plus(8, 8);
    Pow256Plus(16, 8);
    Pow256Plus(24, 7);
  }

  /** Shifting a word right by 248 bits leaves its first byte. */
  lemma FirstByteIsShifted(w: Word)
    ensures WordBytes(w)[0] == w / SHIFTED
  {
    hide ToBytes, FromBytes;
    var b := WordBytes(w);
    WordRoundTrip(w);
    ShiftedIsTwoTo248();
    assert b == b[..1] + b[1..];
    FromBytesConcat(b[..1], b[1..]);
    FromBytesBound(b[1..]);
    OneByte(b[..1]);
    TypeOfId(b[0], FromBytes(b[1..]));
  }

  lemma OneByte(b: seq<Byte>)
    requires |b| == 1
    ensures FromBytes(b) == b[0]
  {
    assert b[..0] == [];
  }

  lemma {:induction false} CleanNameDropsSuffix(name: string)
    ensures CleanName(name + "Counter") == name
    ensures !(exists stem :: name == stem + "Counter") ==> CleanName(name) == name
  {
    assert (name + "Counter")[|name|..] == "Counter" && (name + "Counter")[..|name|] == name;
    if |name| >= 7 && name[|name| - 7..] == "Counter" {
      assert name == name[..|name| - 7] + "Counter";
    }
  }

  /** Where the counters of the six request types start, with and without the suffix. */
  lemma InitialValues(name: string, t: nat)
    requires (name, t) in [("publicDecryption", 1), ("userDecryption", 2), ("prepKeygen", 3), ("key", 4), ("crs", 5),
                           ("keyReshare", 6)]
    ensures InitialValue(name) == InitialValue(name + "Counter") == t * Pow256(31)
  {
    ShiftedIsTwoTo248();
    CleanNameDropsSuffix(name);
  }

  /** All other counters start at zero. */
  lemma OtherInitialValues(name: string)
    requires name !in ["publicDecryption", "userDecryption", "prepKeygen", "key", "crs", "keyReshare"]
    ensures InitialValue(name + "Counter") == 0
    ensures |name| < 7 || name[|name| - 7..] != "Counter" ==> InitialValue(name) == 0
  {
    CleanNameDropsSuffix(name);
  }

  predicate SameRequest(c: string, d: string) {
    IsRequestCounter(c) && IsRequestCounter(d) && CleanName(c) == CleanName(d)
  }

  lemma TypesAreDistinct(c: string, d: string)
    requires IsRequestCounter(c) && IsRequestCounter(d)
    ensures RequestType(c) == RequestType(d) <==> CleanName(c) == CleanName(d)
  {
  }

  lemma TypeOfId(t: nat, n: nat)
    requires n < SHIFTED
    ensures (t * SHIFTED + n) / SHIFTED == t
  {
  }

  lemma InitialValueBound(c: string)
    ensures InitialValue(c) <= 6 * SHIFTED
  {
  }

  // ---------------------------------------------------------------------------------------------
  // The state variables
  // ---------------------------------------------------------------------------------------------

  /** The lines generateMockCounters prints: every counter found in the definitions, with its initial value. */
  method GenerateMockCounters(defs: seq<FunctionDef>) returns (counters: seq<(string, nat)>)
    ensures |counters| == |DeclaredCounters(defs)|
    ensures forall i :: 0 <= i < |counters| ==>
      counters[i] == (DeclaredCounters(defs)[i], InitialValue(DeclaredCounters(defs)[i]))
  {
    hide InitialValue, AsNodes;
    counters := [];
    var names := FindCounterOperators(AsNodes(defs));
    for i := 0 to |names|
      invariant |counters| == i
      invariant forall k :: 0 <= k < i ==> counters[k] == (names[k], InitialValue(names[k]))
    {
      counters := counters + [(names[i], InitialValue(names[i]))];
    }
  }
}
