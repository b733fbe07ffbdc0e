/**
 The generator on the Decryption contract: its four functions that emit events, with the statements the scanners
 look at, and the mock contract that comes out. Names and types are spelled out on both sides.
 */
module DecryptionMocks {
  import opened Lists
  import opened Words
  import opened Wrappers
  import opened SyntaxTree
  import opened MockScan
  import opened EmitScan
  import opened ScannerCases
  import opened MockFunctions
  import opened MockContract
  import opened RequestIds
  import opened MockExamples

  // ---------------------------------------------------------------------------------------------
  // Types
  // ---------------------------------------------------------------------------------------------

  function Innermost(t: TypeName): TypeName {
    if t.ArrayOf? then Innermost(t.base) else t
  }

  function Depth(t: TypeName): nat {
    if t.ArrayOf? then 1 + Depth(t.base) else 0
  }

  function Brackets(n: nat): string {
    if n == 0 then "" else "[]" + Brackets(n - 1)
  }

  lemma {:induction false} MoreBrackets(n: nat)
    ensures Brackets(n + 1) == Brackets(n) + "[]"
  {
    if n > 0 {
      MoreBrackets(n - 1);
      assert Brackets(n + 1) == ("[]" + Brackets(n - 1)) + "[]";
    } else {
      assert "[]" + "" == "[]" && "" + "[]" == "[]";
    }
  }

  /** A type is printed as its innermost type and a pair of brackets for each array around it. */
  lemma {:induction false} TypeTextParts(t: TypeName)
    ensures TypeText(t) ==
      match Innermost(t)
      case Elementary(name) => Some(name + Brackets(Depth(t)))
      case UserDefined(path) => Some(path + Brackets(Depth(t)))
      case _ => None
  {
    match t
    case ArrayOf(base) =>
      TypeTextParts(base);
      MoreBrackets(Depth(base));
      if TypeText(base).Some? {
        var text := if Innermost(t).Elementary? then Innermost(t).name else Innermost(t).path;
        assert text + (Brackets(Depth(base)) + "[]") == (text + Brackets(Depth(base))) + "[]";
      }
    case Elementary(name) => assert name + "" == name;
    case UserDefined(path) => assert path + "" == path;
    case Other(_) =>
  }

  predicate PlainName(text: string) {
    ']' !in text
  }

  /** A parameter that no counter gives: arrays are allocated, structs, strings and bytes live in memory. */
  lemma FormByType(name: Option<string>, t: TypeName, c: Context, counters: seq<string>)
    requires TypeText(t).Some? && FirstMatch(c.assignments, name, counters) == None
    ensures
      var form := FormOf(name, TypeText(t).value, c, counters);
      && (t.ArrayOf? ==> form == NewArray)
      && (t.Elementary? && (t.name == "string" || t.name == "bytes") ==> form == InMemory)
      && (t.UserDefined? && PlainName(t.path) && t.path in c.structs ==> form == InMemory)
      && (t.Elementary? && PlainName(t.name) && t.name !in c.structs && t.name != "string" && t.name != "bytes" ==>
            form == OnStack)
      && (t.UserDefined? && PlainName(t.path) && t.path !in c.structs && t.path != "string" && t.path != "bytes" ==>
            form == OnStack)
  {
    var text := TypeText(t).value;
    if |text| >= 2 && text[|text| - 2..] == "[]" {
      assert text[|text| - 2..][1] == ']';
    }
  }

  // ---------------------------------------------------------------------------------------------
  // The parameter decryptionId
  // ---------------------------------------------------------------------------------------------

  lemma DecryptionIdMatches(a: Assignment, counters: seq<string>)
    ensures Matches(Some("decryptionId"), a, counters) <==>
      || (a.idVar == "publicDecryptionId" && "publicDecryptionCounter" in counters)
      || (a.idVar == "userDecryptionId" && "userDecryptionCounter" in counters)
  {
  }

  lemma {:induction false} MatchIsFound(
    assignments: seq<Assignment>, name: Option<string>, counters: seq<string>, a: Assignment)
    requires a in assignments && Matches(name, a, counters)
    ensures FirstMatch(assignments, name, counters).Some?
  {
    hide Matches;
    if !Matches(name, assignments[0], counters) {
      MatchIsFound(assignments[1..], name, counters, a);
    }
  }

  /**
   Both request functions emit their id as decryptionId. It is read from the counter the function increments, and
   from no counter if the function increments neither.
   */
  lemma DecryptionIdForm(c: Context, text: string, counters: seq<string>)
    requires forall a :: a in c.assignments ==>
      && (a.idVar == "publicDecryptionId" ==> a.counterVar == "publicDecryptionCounter")
      && (a.idVar == "userDecryptionId" ==> a.counterVar == "userDecryptionCounter")
    ensures
      var form := FormOf(Some("decryptionId"), text, c, counters);
      && (Assignment("publicDecryptionCounter", "publicDecryptionId") in c.assignments
          && "publicDecryptionCounter" in counters && "userDecryptionCounter" !in counters ==>
            form == FromCounter("publicDecryptionCounter"))
      && (Assignment("userDecryptionCounter", "userDecryptionId") in c.assignments
          && "userDecryptionCounter" in counters && "publicDecryptionCounter" !in counters ==>
            form == FromCounter("userDecryptionCounter"))
      && ("publicDecryptionCounter" !in counters && "userDecryptionCounter" !in counters ==> !form.FromCounter?)
  {
    hide FirstMatch, Matches;
    var name := Some("decryptionId");
    var found := FirstMatch(c.assignments, name, counters);
    if found.Some? {
      DecryptionIdMatches(found.value, counters);
    }
    forall a | a in c.assignments && Matches(name, a, counters)
      ensures found.Some?
    {
      MatchIsFound(c.assignments, name, counters, a);
    }
    DecryptionIdMatches(Assignment("publicDecryptionCounter", "publicDecryptionId"), counters);
    DecryptionIdMatches(Assignment("userDecryptionCounter", "userDecryptionId"), counters);
  }

  // ---------------------------------------------------------------------------------------------
  // The contract
  // ---------------------------------------------------------------------------------------------

  const BYTES := Elementary("bytes")
  const ADDRESS := Elementary("address")
  const MATERIALS := ArrayOf(UserDefined("SnsCiphertextMaterial"))

  function In(t: TypeName, name: string): Parameter {
    Parameter(Some(name), t, None)
  }

  function Calldata(t: TypeName, name: string): Parameter {
    Parameter(Some(name), t, Some("calldata"))
  }

  function PublicRequestEvent(): EventDef {
    EventDef("PublicDecryptionRequest",
             [In(UINT256, "decryptionId"), In(MATERIALS, "snsCtMaterials"), In(BYTES, "extraData")])
  }

  function PublicCallEvent(): EventDef {
    EventDef("PublicDecryptionResponseCall",
             [In(UINT256, "decryptionId"), In(BYTES, "decryptedResult"), In(BYTES, "signature"),
              In(ADDRESS, "kmsTxSender"), In(BYTES, "extraData")])
  }

  function PublicResponseEvent(): EventDef {
    EventDef("PublicDecryptionResponse",
             [In(UINT256, "decryptionId"), In(BYTES, "decryptedResult"), In(ArrayOf(BYTES), "signatures"),
              In(BYTES, "extraData")])
  }

  function UserRequestEvent(): EventDef {
    EventDef("UserDecryptionRequest",
             [In(UINT256, "decryptionId"), In(MATERIALS, "snsCtMaterials"), In(ADDRESS, "userAddress"),
              In(BYTES, "publicKey"), In(BYTES, "extraData")])
  }

  function UserResponseEvent(): EventDef {
    EventDef("UserDecryptionResponse",
             [In(UINT256, "decryptionId"), In(UINT256, "indexShare"), In(BYTES, "userDecryptedShare"),
              In(BYTES, "signature"), In(BYTES, "extraData")])
  }

  function UserReachedEvent(): EventDef {
    EventDef("UserDecryptionResponseThresholdReached", [In(UINT256, "decryptionId")])
  }

  function DecryptionEvents(): seq<EventDef> {
    [PublicRequestEvent(), PublicCallEvent(), PublicResponseEvent(), UserRequestEvent(), UserResponseEvent(),
     UserReachedEvent()]
  }

  function DecryptionStructs(): seq<string> {
    ["ContractsInfo", "RequestValidity", "PublicDecryptVerification", "UserDecryptRequestVerification",
     "UserDecryptResponseVerification", "UserDecryptionPayload", "SnsCiphertextMaterial", "CiphertextMaterial",
     "CtHandleContractPair"]
  }

  /** $.counter++; uint256 id = $.counter; emit Event(...); */
  function RequestBody(counter: string, id: string, event: string): seq<Node> {
    [Increment(counter)] + ([ReadInto(id, counter)] + [EmitOf(event)])
  }

  /** if (...) { emit Event(...); } */
  function EmitIf(event: string): Node {
    Obj([Field("type", Str("IfStatement")), Field("trueBody", BlockOf([EmitOf(event)]))])
  }

  /** emit Call(...); if (...) { emit Done(...); } */
  function ResponseBody(call: string, done: string): seq<Node> {
    [EmitOf(call)] + [EmitIf(done)]
  }

  function Defined(name: string, parameters: seq<Parameter>, body: seq<Node>): FunctionDef {
    FunctionDef(name, parameters, "external", "", [], Some(body), [])
  }

  function PublicRequest(visibility: string, mutability: string): FunctionDef {
    FunctionDef("publicDecryptionRequest",
                [Calldata(ArrayOf(Elementary("bytes32")), "ctHandles"), Calldata(BYTES, "extraData")],
                visibility, mutability, [],
                Some(RequestBody("publicDecryptionCounter", "publicDecryptionId", "PublicDecryptionRequest")), [])
  }

  function PublicResponse(): FunctionDef {
    Defined("publicDecryptionResponse",
            [In(UINT256, "decryptionId"), Calldata(BYTES, "decryptedResult"), Calldata(BYTES, "signature"),
             Calldata(BYTES, "extraData")],
            ResponseBody("PublicDecryptionResponseCall", "PublicDecryptionResponse"))
  }

  function UserRequest(): FunctionDef {
    Defined("userDecryptionRequest",
            [Calldata(ArrayOf(UserDefined("CtHandleContractPair")), "ctHandleContractPairs"),
             Calldata(UserDefined("RequestValidity"), "requestValidity"),
             Calldata(UserDefined("ContractsInfo"), "contractsInfo"), In(ADDRESS, "userAddress"),
             Calldata(BYTES, "publicKey"), Calldata(BYTES, "signature"), Calldata(BYTES, "extraData")],
            RequestBody("userDecryptionCounter", "userDecryptionId", "UserDecryptionRequest"))
  }

  function UserResponse(): FunctionDef {
    Defined("userDecryptionResponse",
            [In(UINT256, "decryptionId"), Calldata(BYTES, "userDecryptedShare"), Calldata(BYTES, "signature"),
             Calldata(BYTES, "extraData")],
            ResponseBody("UserDecryptionResponse", "UserDecryptionResponseThresholdReached"))
  }

  /** The functions that emit events, in the order of the contract. */
  function DecryptionFunctions(visibility: string, mutability: string): seq<FunctionDef> {
    [PublicRequest(visibility, mutability), PublicResponse(), UserRequest(), UserResponse()]
  }

  function DecryptionContext(): Context {
    Context(DecryptionEvents(), DecryptionStructs(),
            [Assignment("publicDecryptionCounter", "publicDecryptionId"),
             Assignment("userDecryptionCounter", "userDecryptionId")])
  }

  // ---------------------------------------------------------------------------------------------
  // The mock contract
  // ---------------------------------------------------------------------------------------------

  function ByValue(typeText: string, name: string): string {
    typeText + " " + name
  }

  function InCalldata(typeText: string, name: string): string {
    typeText + " calldata " + name
  }

  function PublicRequestMock(visibility: string): MockFunction {
    MockFunction(
      "publicDecryptionRequest", ["ctHandles", "extraData"],
      [InCalldata("bytes32[]", "ctHandles"), InCalldata("bytes", "extraData")], visibility,
      [Declaration(Some("decryptionId"), "uint256", FromCounter("publicDecryptionCounter")),
       Declaration(Some("snsCtMaterials"), "SnsCiphertextMaterial[]", NewArray)],
      [Emit("PublicDecryptionRequest", [Some("decryptionId"), Some("snsCtMaterials"), Some("extraData")])])
  }

  function PublicResponseMock(): MockFunction {
    MockFunction(
      "publicDecryptionResponse", ["decryptionId", "decryptedResult", "signature", "extraData"],
      [ByValue("uint256", "decryptionId"), InCalldata("bytes", "decryptedResult"), InCalldata("bytes", "signature"),
       InCalldata("bytes", "extraData")], "external",
      [Declaration(Some("kmsTxSender"), "address", OnStack), Declaration(Some("signatures"), "bytes[]", NewArray)],
      [Emit("PublicDecryptionResponseCall",
            [Some("decryptionId"), Some("decryptedResult"), Some("signature"), Some("kmsTxSender"),
             Some("extraData")]),
       Emit("PublicDecryptionResponse",
            [Some("decryptionId"), Some("decryptedResult"), Some("signatures"), Some("extraData")])])
  }

  function UserRequestMock(): MockFunction {
    MockFunction(
      "userDecryptionRequest",
      ["ctHandleContractPairs", "requestValidity", "contractsInfo", "userAddress", "publicKey", "signature",
       "extraData"],
      [InCalldata("CtHandleContractPair[]", "ctHandleContractPairs"), InCalldata("RequestValidity", "requestValidity"),
       InCalldata("ContractsInfo", "contractsInfo"), ByValue("address", "userAddress"),
       InCalldata("bytes", "publicKey"),
       InCalldata("bytes", "signature"), InCalldata("bytes", "extraData")], "external",
      [Declaration(Some("decryptionId"), "uint256", FromCounter("userDecryptionCounter")),
       Declaration(Some("snsCtMaterials"), "SnsCiphertextMaterial[]", NewArray)],
      [Emit("UserDecryptionRequest",
            [Some("decryptionId"), Some("snsCtMaterials"), Some("userAddress"), Some("publicKey"),
             Some("extraData")])])
  }

  function UserResponseMock(): MockFunction {
    MockFunction(
      "userDecryptionResponse", ["decryptionId", "userDecryptedShare", "signature", "extraData"],
      [ByValue("uint256", "decryptionId"), InCalldata("bytes", "userDecryptedShare"), InCalldata("bytes", "signature"),
       InCalldata("bytes", "extraData")], "external",
      [Declaration(Some("indexShare"), "uint256", OnStack)],
      [Emit("UserDecryptionResponse",
            [Some("decryptionId"), Some("indexShare"), Some("userDecryptedShare"), Some("signature"),
             Some("extraData")]),
       Emit("UserDecryptionResponseThresholdReached", [Some("decryptionId")])])
  }

  // ---------------------------------------------------------------------------------------------
  // What the scanners find
  // ---------------------------------------------------------------------------------------------

  lemma {:induction false} FoundInRequest(counter: string, id: string, event: string)
    requires counter != "" && id != ""
    ensures
      var body := RequestBody(counter, id, event);
      && Increments(body) == [counter] && MemberReads(body) == [Assignment(counter, id)]
      && Emits(body) == [EmitOf(event)]
  {
    hide Increments, MemberReads, Emits, Scanned, Increment, ReadInto, EmitOf, IsEmit;
    var rest := [EmitOf(event)];
    FoundInPair(Assignment(counter, id), rest);
    QuietEmit(event);
    assert [counter] + [] == [counter] && [Assignment(counter, id)] + [] == [Assignment(counter, id)];
    EmitsOfOthers(id, counter);
    EmitsOfOthers(event, counter);
    NoEmitIn(Increment(counter), [ReadInto(id, counter)] + rest);
    NoEmitIn(ReadInto(id, counter), rest);
    OneEmit(event);
  }

  lemma {:induction false} OneEmit(event: string)
    ensures Emits([EmitOf(event)]) == [EmitOf(event)]
  {
    hide Emits, Scanned, EmitOf;
    EmitsOfOthers(event, "");
    NextEmits([EmitOf(event)], 0);
    assert [EmitOf(event)][..1] == [EmitOf(event)];
  }

  lemma {:induction false} FoundInResponse(call: string, done: string)
    ensures
      var body := ResponseBody(call, done);
      Increments(body) == [] && MemberReads(body) == [] && Emits(body) == [EmitOf(call), EmitOf(done)]
  {
    hide Increments, MemberReads, Emits, Scanned, EmitOf, Quiet, IsEmit, Statements;
    var body := ResponseBody(call, done);
    QuietEmit(call);
    QuietEmit(done);
    QuietNode(Arr([EmitOf(done)]));
    QuietObject("statements", Arr([EmitOf(done)]));
    QuietString("IfStatement");
    PropsOfEmitIf(done);
    QuietNode(EmitIf(done));
    QuietList(body);
    EmitsOfOthers(call, "");
    OneEmit(call);
    OneEmit(done);
    ScannedCases(EmitIf(done));
    NextEmits(body, 1);
    assert body[..2] == body && body[..1] == [EmitOf(call)];
  }

  lemma {:induction false} PropsOfEmitIf(event: string)
    ensures
      var node := EmitIf(event);
      && HasType(node, "IfStatement") && !IsEmit(node) && !IsIncrement(node) && MemberRead(node) == []
      && Statements(Prop(node, "trueBody")) == [EmitOf(event)]
  {
    hide Prop, EmitOf, Statements;
    var node := EmitIf(event);
    FirstProp(node.fields[0], [node.fields[1]], "type");
    FirstProp(node.fields[0], [node.fields[1]], "trueBody");
    FirstProp(node.fields[1], [], "trueBody");
    assert node == Obj([node.fields[0]] + [node.fields[1]]);
    assert [node.fields[1]] + [] == [node.fields[1]];
    StatementsOfBlock([EmitOf(event)]);
  }

  // ---------------------------------------------------------------------------------------------
  // What is generated
  // ---------------------------------------------------------------------------------------------

  lemma NameOfEmit(event: string)
    ensures EventName(EmitOf(event)) == Str(event)
  {
    hide Prop;
    var node := EmitOf(event);
    FirstProp(node.fields[0], [node.fields[1]], "eventCall");
    FirstProp(node.fields[1], [], "eventCall");
    assert node == Obj([node.fields[0]] + [node.fields[1]]);
    assert [node.fields[1]] + [] == [node.fields[1]];
    OneProp("expression", Obj([Field("name", Str(event))]));
    OneProp("name", Str(event));
  }

  lemma {:induction false} OneProp(key: string, value: Node)
    ensures Prop(Obj([Field(key, value)]), key) == value
  {
  }

  lemma {:induction false} NextEventOf(emits: seq<Node>, event: EventDef, i: nat)
    requires i < |DecryptionEvents()| && DecryptionEvents()[i] == event
    requires EventsOf(emits, DecryptionEvents()).Some?
    ensures EventsOf(emits + [EmitOf(event.name)], DecryptionEvents()) ==
      Some(EventsOf(emits, DecryptionEvents()).value + [event])
  {
    hide EmitOf, FindEvent, EventName;
    NameOfEmit(event.name);
    FindEventIsFirst(DecryptionEvents(), event.name, i);
    assert (emits + [EmitOf(event.name)])[..|emits|] == emits;
  }

  lemma {:induction false} EventsOfOne(event: EventDef, i: nat)
    requires i < |DecryptionEvents()| && DecryptionEvents()[i] == event
    ensures EventsOf([EmitOf(event.name)], DecryptionEvents()) == Some([event])
    ensures AllParameters([event]) == event.parameters
  {
    hide EmitOf;
    NextEventOf([], event, i);
    assert [] + [EmitOf(event.name)] == [EmitOf(event.name)];
    assert [event][..0] == [] && [] + [event] == [event];
    assert EventsOf([], DecryptionEvents()) == Some([]);
    assert AllParameters([event]) == AllParameters([]) + event.parameters;
  }

  lemma {:induction false} EventsOfTwo(first: EventDef, i: nat, second: EventDef, j: nat)
    requires i < |DecryptionEvents()| && DecryptionEvents()[i] == first
    requires j < |DecryptionEvents()| && DecryptionEvents()[j] == second
    ensures EventsOf([EmitOf(first.name), EmitOf(second.name)], DecryptionEvents()) == Some([first, second])
    ensures AllParameters([first, second]) == first.parameters + second.parameters
  {
    hide EmitOf, EventsOf, AllParameters;
    EventsOfOne(first, i);
    NextEventOf([EmitOf(first.name)], second, j);
    AppendEvent([first], second);
    assert [EmitOf(first.name)] + [EmitOf(second.name)] == [EmitOf(first.name), EmitOf(second.name)];
    assert [first] + [second] == [first, second];
  }

  /** Parameters that are inputs or were declared before add nothing. */
  lemma {:induction false} FreshSkips(parameters: seq<Parameter>, more: seq<Parameter>, inputs: seq<string>)
    requires forall p :: p in more ==> IsInput(p.name, inputs) || p.name in Names(Fresh(parameters, inputs))
    ensures Fresh(parameters + more, inputs) == Fresh(parameters, inputs)
  {
    if more == [] {
      assert parameters + more == parameters;
    } else {
      var init := more[..|more| - 1];
      FreshSkips(parameters, init, inputs);
      assert parameters + more == (parameters + init) + [more[|more| - 1]];
      FreshSnoc(parameters + init, more[|more| - 1], inputs);
    }
  }

  lemma FreshTakes(parameters: seq<Parameter>, p: Parameter, inputs: seq<string>)
    requires !IsInput(p.name, inputs) && p.name !in Names(Fresh(parameters, inputs))
    ensures Fresh(parameters + [p], inputs) == Fresh(parameters, inputs) + [p]
  {
    FreshSnoc(parameters, p, inputs);
  }

  /** The declaration of a parameter that is not skipped. */
  function Declares(p: Parameter, c: Context, counters: seq<string>): Declaration
    requires TypeText(p.typeName).Some?
  {
    var text := TypeText(p.typeName).value;
    Declaration(p.name, text, FormOf(p.name, text, c, counters))
  }

  lemma {:induction false} DeclareOne(p: Parameter, c: Context, counters: seq<string>)
    requires TypeText(p.typeName).Some?
    ensures DeclareAll([p], c, counters) == Some([Declares(p, c, counters)])
  {
    hide FormOf;
    DeclareAllSnoc([], p, c, counters);
    assert [] + [p] == [p] && [] + [Declares(p, c, counters)] == [Declares(p, c, counters)];
    assert DeclareAll([], c, counters) == Some([]);
  }

  lemma {:induction false} DeclareTwo(p: Parameter, q: Parameter, c: Context, counters: seq<string>)
    requires TypeText(p.typeName).Some? && TypeText(q.typeName).Some?
    ensures DeclareAll([p, q], c, counters) == Some([Declares(p, c, counters), Declares(q, c, counters)])
  {
    hide FormOf, DeclareAll;
    DeclareOne(p, c, counters);
    DeclareAllSnoc([p], q, c, counters);
    assert [p] + [q] == [p, q];
    assert [Declares(p, c, counters)] + [Declares(q, c, counters)] ==
      [Declares(p, c, counters), Declares(q, c, counters)];
  }

  /** Only decryptionId is an id in this contract. */
  lemma {:induction false} NoIdOf(name: string, counters: seq<string>)
    requires name !in ["decryptionId", "publicDecryptionId", "userDecryptionId"]
    ensures FirstMatch(DecryptionContext().assignments, Some(name), counters) == None
  {
    var assignments := DecryptionContext().assignments;
    assert FirstMatch(assignments[2..], Some(name), counters) == None;
    assert assignments[1..][1..] == assignments[2..];
  }

  lemma TypeTexts()
    ensures TypeText(MATERIALS) == Some("SnsCiphertextMaterial[]") && TypeText(ArrayOf(BYTES)) == Some("bytes[]")
    ensures TypeText(ArrayOf(Elementary("bytes32"))) == Some("bytes32[]")
    ensures TypeText(ArrayOf(UserDefined("CtHandleContractPair"))) == Some("CtHandleContractPair[]")
  {
    assert "SnsCiphertextMaterial" + "[]" == "SnsCiphertextMaterial[]";
    assert "CtHandleContractPair" + "[]" == "CtHandleContractPair[]";
    assert "bytes" + "[]" == "bytes[]" && "bytes32" + "[]" == "bytes32[]";
  }

  /** The declarations of a request function: the id from its counter, and the materials in a new array. */
  lemma {:induction false} RequestDeclares(counter: string, inputs: seq<string>, more: seq<Parameter>)
    requires counter == "publicDecryptionCounter" || counter == "userDecryptionCounter"
    requires "decryptionId" !in inputs && "snsCtMaterials" !in inputs
    requires forall p :: p in more ==> IsInput(p.name, inputs)
    ensures
      var parameters := [In(UINT256, "decryptionId"), In(MATERIALS, "snsCtMaterials")] + more;
      DeclareAll(Fresh(parameters, inputs), DecryptionContext(), [counter]) ==
        Some([Declaration(Some("decryptionId"), "uint256", FromCounter(counter)),
              Declaration(Some("snsCtMaterials"), "SnsCiphertextMaterial[]", NewArray)])
  {
    hide Fresh, DeclareAll, FormOf, FirstMatch;
    var c := DecryptionContext();
    var id, materials := In(UINT256, "decryptionId"), In(MATERIALS, "snsCtMaterials");
    NothingFresh(inputs);
    FreshTakes([], id, inputs);
    assert [] + [id] == [id];
    FreshTakes([id], materials, inputs);
    assert [id] + [materials] == [id, materials];
    FreshSkips([id, materials], more, inputs);
    DeclareTwo(id, materials, c, [counter]);
    DecryptionIdForm(c, "uint256", [counter]);
    assert c.assignments[0] in c.assignments && c.assignments[1] in c.assignments;
    NoIdOf("snsCtMaterials", [counter]);
    FormByType(materials.name, MATERIALS, c, [counter]);
    TypeTexts();
  }

  lemma NothingFresh(inputs: seq<string>)
    ensures Fresh([], inputs) == []
  {
  }

  /** A parameter is printed with its location if it has one, and with a comment if it has no name. */
  lemma TextOf(t: TypeName, name: string)
    requires TypeText(t).Some?
    ensures ParameterText(In(t, name)) == ByValue(TypeText(t).value, name)
    ensures ParameterText(Parameter(Some(name), t, Some(""))) == ByValue(TypeText(t).value, name)
    ensures ParameterText(Calldata(t, name)) == InCalldata(TypeText(t).value, name)
    ensures ParameterText(Parameter(None, t, Some("calldata"))) ==
      InCalldata(TypeText(t).value, "/* unusedVariable */")
    ensures ParameterText(Parameter(None, t, None)) == ByValue(TypeText(t).value, "/* unusedVariable */")
  {
    Joined(TypeText(t).value, name);
    Joined(TypeText(t).value, "/* unusedVariable */");
  }

  lemma Joined(text: string, name: string)
    ensures text + " " + "" + name == ByValue(text, name)
    ensures text + " " + ("calldata" + " ") + name == InCalldata(text, name)
  {
    assert "calldata" + " " == "calldata ";
    assert text + " " + "calldata " == text + " calldata ";
  }

  lemma {:induction false} TextsOfPublicRequest()
    ensures
      var def := PublicRequest("external", "");
      && TypesSupported(def.parameters)
      && ParameterNames(def.parameters) == PublicRequestMock("external").parameterNames
      && ParameterTexts(def.parameters) == PublicRequestMock("external").parameterTexts
  {
    hide ParameterText, TypeText, ByValue, InCalldata;
    TypeTexts();
    SimpleTexts();
    TextOf(ArrayOf(Elementary("bytes32")), "ctHandles");
    TextOf(BYTES, "extraData");
  }

  lemma SimpleTexts()
    ensures TypeText(BYTES) == Some("bytes") && TypeText(ADDRESS) == Some("address")
    ensures TypeText(UINT256) == Some("uint256")
    ensures TypeText(UserDefined("RequestValidity")) == Some("RequestValidity")
    ensures TypeText(UserDefined("ContractsInfo")) == Some("ContractsInfo")
  {
  }

  lemma {:induction false} TextsOfUserRequest()
    ensures
      var def := UserRequest();
      && TypesSupported(def.parameters) && ParameterNames(def.parameters) == UserRequestMock().parameterNames
      && ParameterTexts(def.parameters) == UserRequestMock().parameterTexts
  {
    hide ParameterText, TypeText, ByValue, InCalldata, RequestBody, ParameterTexts;
    var parameters := UserRequest().parameters;
    TypeTexts();
    SimpleTexts();
    TextsOfSeven(parameters[0], parameters[1], parameters[2], parameters[3], parameters[4], parameters[5],
                 parameters[6]);
    TextOf(parameters[0].typeName, parameters[0].name.value);
    TextOf(parameters[1].typeName, parameters[1].name.value);
    TextOf(parameters[2].typeName, parameters[2].name.value);
    TextOf(ADDRESS, parameters[3].name.value);
    TextOf(BYTES, parameters[4].name.value);
    TextOf(BYTES, parameters[5].name.value);
    TextOf(BYTES, parameters[6].name.value);
  }

  lemma TextsOfSeven(
    a: Parameter, b: Parameter, c: Parameter, d: Parameter, e: Parameter, f: Parameter, g: Parameter)
    requires forall p :: p in [a, b, c, d, e, f, g] ==> TypeText(p.typeName).Some? && p.name.Some?
    ensures TypesSupported([a, b, c, d, e, f, g])
    ensures ParameterNames([a, b, c, d, e, f, g]) ==
      [a.name.value, b.name.value, c.name.value, d.name.value, e.name.value, f.name.value, g.name.value]
    ensures ParameterTexts([a, b, c, d, e, f, g]) ==
      [ParameterText(a), ParameterText(b), ParameterText(c), ParameterText(d), ParameterText(e), ParameterText(f),
       ParameterText(g)]
  {
    hide ParameterText, TypeText;
  }

  lemma {:induction false} TextsOfResponses()
    ensures
      var def := PublicResponse();
      && TypesSupported(def.parameters) && ParameterNames(def.parameters) == PublicResponseMock().parameterNames
      && ParameterTexts(def.parameters) == PublicResponseMock().parameterTexts
    ensures
      var def := UserResponse();
      && TypesSupported(def.parameters) && ParameterNames(def.parameters) == UserResponseMock().parameterNames
      && ParameterTexts(def.parameters) == UserResponseMock().parameterTexts
  {
    hide ParameterText, TypeText, ByValue, InCalldata;
    SimpleTexts();
    TextOf(UINT256, "decryptionId");
    TextOf(BYTES, "decryptedResult");
    TextOf(BYTES, "userDecryptedShare");
    TextOf(BYTES, "signature");
    TextOf(BYTES, "extraData");
  }

  lemma NamesOfPublicEvents()
    ensures Names(PublicRequestEvent().parameters) ==
      [Some("decryptionId"), Some("snsCtMaterials"), Some("extraData")]
    ensures Names(PublicCallEvent().parameters) ==
      [Some("decryptionId"), Some("decryptedResult"), Some("signature"), Some("kmsTxSender"), Some("extraData")]
    ensures Names(PublicResponseEvent().parameters) ==
      [Some("decryptionId"), Some("decryptedResult"), Some("signatures"), Some("extraData")]
  {
  }

  lemma NamesOfUserEvents()
    ensures Names(UserRequestEvent().parameters) ==
      [Some("decryptionId"), Some("snsCtMaterials"), Some("userAddress"), Some("publicKey"), Some("extraData")]
    ensures Names(UserResponseEvent().parameters) ==
      [Some("decryptionId"), Some("indexShare"), Some("userDecryptedShare"), Some("signature"), Some("extraData")]
    ensures Names(UserReachedEvent().parameters) == [Some("decryptionId")]
  {
  }

  lemma EmitsOfEvents(first: EventDef, second: EventDef)
    ensures EmitAll([first]) == [Emit(first.name, Names(first.parameters))]
    ensures EmitAll([first, second]) ==
      [Emit(first.name, Names(first.parameters)), Emit(second.name, Names(second.parameters))]
  {
    hide Names;
  }

  /** A mock is made of its header, its declarations and its emits. */
  lemma {:induction false} MockFrom(def: FunctionDef, emits: seq<Node>, events: seq<EventDef>, f: MockFunction)
    requires Emits(Body(def)) == emits && emits != [] && EventsOf(emits, DecryptionEvents()) == Some(events)
    requires TypesSupported(def.parameters) && f.name == def.name && f.visibility == def.visibility
    requires f.parameterNames == ParameterNames(def.parameters) && f.parameterTexts == ParameterTexts(def.parameters)
    requires f.emits == EmitAll(events)
    requires DeclareAll(Fresh(AllParameters(events), f.parameterNames), DecryptionContext(),
                        Dedup(Increments(Body(def)))) == Some(f.declarations)
    ensures MockOf(def, Body(def), DecryptionContext()) == Mock(f)
  {
    hide Emits, EventsOf, TypesSupported, ParameterNames, ParameterTexts, EmitAll, DeclareAll, Fresh, AllParameters,
      Dedup, Increments, DecryptionEvents, DecryptionStructs;
  }

  lemma {:induction false} DeclaredInPublicRequest(visibility: string)
    ensures
      var f := PublicRequestMock(visibility);
      DeclareAll(Fresh(PublicRequestEvent().parameters, f.parameterNames), DecryptionContext(),
                 ["publicDecryptionCounter"]) == Some(f.declarations)
  {
    hide Fresh, DeclareAll, DecryptionContext, ByValue, InCalldata;
    var inputs, more := PublicRequestMock(visibility).parameterNames, [In(BYTES, "extraData")];
    assert inputs[1] == "extraData";
    RequestDeclares("publicDecryptionCounter", inputs, more);
    assert PublicRequestEvent().parameters == [In(UINT256, "decryptionId"), In(MATERIALS, "snsCtMaterials")] + more;
  }

  lemma {:induction false} DeclaredInUserRequest()
    ensures
      var f := UserRequestMock();
      DeclareAll(Fresh(UserRequestEvent().parameters, f.parameterNames), DecryptionContext(),
                 ["userDecryptionCounter"]) == Some(f.declarations)
  {
    hide Fresh, DeclareAll, DecryptionContext, ByValue, InCalldata;
    var inputs := UserRequestMock().parameterNames;
    var more := [In(ADDRESS, "userAddress"), In(BYTES, "publicKey"), In(BYTES, "extraData")];
    assert inputs[3] == "userAddress" && inputs[4] == "publicKey" && inputs[6] == "extraData";
    RequestDeclares("userDecryptionCounter", inputs, more);
    assert UserRequestEvent().parameters == [In(UINT256, "decryptionId"), In(MATERIALS, "snsCtMaterials")] + more;
  }

  lemma EmittedInRequests(visibility: string)
    ensures EmitAll([PublicRequestEvent()]) == PublicRequestMock(visibility).emits
    ensures EmitAll([UserRequestEvent()]) == UserRequestMock().emits
  {
    hide EmitAll, Names, ByValue, InCalldata;
    EmitsOfEvents(PublicRequestEvent(), UserRequestEvent());
    EmitsOfEvents(UserRequestEvent(), PublicRequestEvent());
    NamesOfPublicEvents();
    NamesOfUserEvents();
  }

  lemma {:induction false} MockOfPublicRequest(visibility: string, mutability: string)
    ensures
      var def := PublicRequest(visibility, mutability);
      MockOf(def, Body(def), DecryptionContext()) == Mock(PublicRequestMock(visibility))
  {
    hide Increments, Emits, EventsOf, Fresh, DeclareAll, RequestBody, EmitOf, ParameterTexts, AllParameters, Dedup,
      TypesSupported, ParameterNames, Names, EmitAll, ByValue, InCalldata, MockOf, DecryptionContext;
    var def, event := PublicRequest(visibility, mutability), PublicRequestEvent();
    FoundInRequest("publicDecryptionCounter", "publicDecryptionId", event.name);
    OneCounter("publicDecryptionCounter");
    TextsOfPublicRequest();
    assert def.parameters == PublicRequest("external", "").parameters;
    EventsOfOne(event, 0);
    DeclaredInPublicRequest(visibility);
    EmittedInRequests(visibility);
    MockFrom(def, [EmitOf(event.name)], [event], PublicRequestMock(visibility));
  }

  lemma {:induction false} OneCounter(counter: string)
    ensures Dedup([counter]) == [counter] && Dedup<string>([]) == []
  {
    DedupIdempotent([counter]);
  }

  lemma {:induction false} MockOfUserRequest()
    ensures MockOf(UserRequest(), Body(UserRequest()), DecryptionContext()) == Mock(UserRequestMock())
  {
    hide Increments, Emits, EventsOf, Fresh, DeclareAll, RequestBody, EmitOf, ParameterTexts, AllParameters, Dedup,
      TypesSupported, ParameterNames, Names, EmitAll, ByValue, InCalldata, MockOf, DecryptionContext;
    var def, event := UserRequest(), UserRequestEvent();
    FoundInRequest("userDecryptionCounter", "userDecryptionId", event.name);
    OneCounter("userDecryptionCounter");
    TextsOfUserRequest();
    EventsOfOne(event, 3);
    DeclaredInUserRequest();
    EmittedInRequests("external");
    MockFrom(def, [EmitOf(event.name)], [event], UserRequestMock());
  }

  lemma {:induction false} FreshInPublicResponse()
    ensures Fresh(PublicCallEvent().parameters + PublicResponseEvent().parameters, PublicResponseMock().parameterNames)
      == [In(ADDRESS, "kmsTxSender"), In(ArrayOf(BYTES), "signatures")]
  {
    hide Fresh;
    var inputs := PublicResponseMock().parameterNames;
    var before := [In(UINT256, "decryptionId"), In(BYTES, "decryptedResult"), In(BYTES, "signature")];
    var between := [In(BYTES, "extraData"), In(UINT256, "decryptionId"), In(BYTES, "decryptedResult")];
    var after := [In(BYTES, "extraData")];
    var sender, signatures := In(ADDRESS, "kmsTxSender"), In(ArrayOf(BYTES), "signatures");
    assert inputs[0] == "decryptionId" && inputs[1] == "decryptedResult" && inputs[2] == "signature";
    assert inputs[3] == "extraData";
    NothingFresh(inputs);
    FreshSkips([], before, inputs);
    assert [] + before == before && [] + [sender] == [sender];
    FreshTakes(before, sender, inputs);
    FreshSkips(before + [sender], between, inputs);
    FreshTakes(before + [sender] + between, signatures, inputs);
    assert [sender] + [signatures] == [sender, signatures];
    FreshSkips(before + [sender] + between + [signatures], after, inputs);
    assert PublicCallEvent().parameters + PublicResponseEvent().parameters ==
      before + [sender] + between + [signatures] + after;
  }

  lemma {:induction false} DeclaredInPublicResponse()
    ensures
      DeclareAll([In(ADDRESS, "kmsTxSender"), In(ArrayOf(BYTES), "signatures")], DecryptionContext(), []) ==
        Some(PublicResponseMock().declarations)
  {
    hide DeclareAll, FormOf, FirstMatch, ByValue, InCalldata, DecryptionEvents;
    var c := DecryptionContext();
    DeclareTwo(In(ADDRESS, "kmsTxSender"), In(ArrayOf(BYTES), "signatures"), c, []);
    NoIdOf("kmsTxSender", []);
    NoIdOf("signatures", []);
    TypeTexts();
    SimpleTexts();
    FormByType(Some("kmsTxSender"), ADDRESS, c, []);
    FormByType(Some("signatures"), ArrayOf(BYTES), c, []);
  }

  lemma EmittedInResponses()
    ensures EmitAll([PublicCallEvent(), PublicResponseEvent()]) == PublicResponseMock().emits
    ensures EmitAll([UserResponseEvent(), UserReachedEvent()]) == UserResponseMock().emits
  {
    hide EmitAll, Names, ByValue, InCalldata;
    EmitsOfEvents(PublicCallEvent(), PublicResponseEvent());
    EmitsOfEvents(UserResponseEvent(), UserReachedEvent());
    NamesOfPublicEvents();
    NamesOfUserEvents();
  }

  lemma {:induction false} MockOfPublicResponse()
    ensures MockOf(PublicResponse(), Body(PublicResponse()), DecryptionContext()) == Mock(PublicResponseMock())
  {
    hide Increments, Emits, EventsOf, Fresh, DeclareAll, ResponseBody, EmitOf, ParameterTexts, AllParameters, Dedup,
      TypesSupported, ParameterNames, Names, EmitAll, ByValue, InCalldata, MockOf, DecryptionContext;
    var first, second := PublicCallEvent(), PublicResponseEvent();
    FoundInResponse(first.name, second.name);
    OneCounter("");
    TextsOfResponses();
    EventsOfTwo(first, 1, second, 2);
    FreshInPublicResponse();
    DeclaredInPublicResponse();
    EmittedInResponses();
    MockFrom(PublicResponse(), [EmitOf(first.name), EmitOf(second.name)], [first, second], PublicResponseMock());
  }

  lemma {:induction false} FreshInUserResponse()
    ensures Fresh(UserResponseEvent().parameters + UserReachedEvent().parameters, UserResponseMock().parameterNames)
      == [In(UINT256, "indexShare")]
  {
    hide Fresh;
    var inputs := UserResponseMock().parameterNames;
    var before, share := [In(UINT256, "decryptionId")], In(UINT256, "indexShare");
    var after := [In(BYTES, "userDecryptedShare"), In(BYTES, "signature"), In(BYTES, "extraData")] + before;
    assert inputs[0] == "decryptionId" && inputs[1] == "userDecryptedShare" && inputs[2] == "signature";
    assert inputs[3] == "extraData";
    NothingFresh(inputs);
    FreshSkips([], before, inputs);
    assert [] + before == before && [] + [share] == [share];
    FreshTakes(before, share, inputs);
    FreshSkips(before + [share], after, inputs);
    assert UserResponseEvent().parameters + UserReachedEvent().parameters == before + [share] + after;
  }

  lemma {:induction false} DeclaredInUserResponse()
    ensures DeclareAll([In(UINT256, "indexShare")], DecryptionContext(), []) == Some(UserResponseMock().declarations)
  {
    hide DeclareAll, FormOf, FirstMatch, ByValue, InCalldata, DecryptionEvents;
    var c := DecryptionContext();
    DeclareOne(In(UINT256, "indexShare"), c, []);
    NoIdOf("indexShare", []);
    SimpleTexts();
    FormByType(Some("indexShare"), UINT256, c, []);
  }

  lemma {:induction false} MockOfUserResponse()
    ensures MockOf(UserResponse(), Body(UserResponse()), DecryptionContext()) == Mock(UserResponseMock())
  {
    hide Increments, Emits, EventsOf, Fresh, DeclareAll, ResponseBody, EmitOf, ParameterTexts, AllParameters, Dedup,
      TypesSupported, ParameterNames, Names, EmitAll, ByValue, InCalldata, MockOf, DecryptionContext;
    var first, second := UserResponseEvent(), UserReachedEvent();
    FoundInResponse(first.name, second.name);
    OneCounter("");
    TextsOfResponses();
    EventsOfTwo(first, 4, second, 5);
    FreshInUserResponse();
    DeclaredInUserResponse();
    EmittedInResponses();
    MockFrom(UserResponse(), [EmitOf(first.name), EmitOf(second.name)], [first, second], UserResponseMock());
  }

  // ---------------------------------------------------------------------------------------------
  // The whole contract
  // ---------------------------------------------------------------------------------------------

  lemma {:induction false} FoundInFunctions(visibility: string, mutability: string)
    ensures
      var defs, counters := DecryptionFunctions(visibility, mutability),
        ["publicDecryptionCounter", "userDecryptionCounter"];
      && Increments(Body(defs[0])) == ["publicDecryptionCounter"] && Increments(Body(defs[1])) == []
      && Increments(Body(defs[2])) == ["userDecryptionCounter"] && Increments(Body(defs[3])) == []
      && FromCounters(MemberReads(Body(defs[0])), counters) ==
           [Assignment("publicDecryptionCounter", "publicDecryptionId")]
      && FromCounters(MemberReads(Body(defs[2])), counters) ==
           [Assignment("userDecryptionCounter", "userDecryptionId")]
      && FromCounters(MemberReads(Body(defs[1])), counters) == FromCounters(MemberReads(Body(defs[3])), counters) == []
  {
    hide Increments, MemberReads, FromCounters, RequestBody, ResponseBody;
    var counters := ["publicDecryptionCounter", "userDecryptionCounter"];
    FoundInRequest(counters[0], "publicDecryptionId", "PublicDecryptionRequest");
    FoundInRequest(counters[1], "userDecryptionId", "UserDecryptionRequest");
    FoundInResponse("PublicDecryptionResponseCall", "PublicDecryptionResponse");
    FoundInResponse("UserDecryptionResponse", "UserDecryptionResponseThresholdReached");
    AllAreKept([Assignment(counters[0], "publicDecryptionId")], counters);
    AllAreKept([Assignment(counters[1], "userDecryptionId")], counters);
    AllAreKept([], counters);
  }

  /** Four functions of which the first and the third take an id from a counter. */
  lemma {:induction false} ContextOfFour(
    defs: seq<FunctionDef>, a: Assignment, b: Assignment, events: seq<EventDef>, structs: seq<string>)
    requires |defs| == 4
    requires Increments(Body(defs[0])) == [a.counterVar] && Increments(Body(defs[1])) == []
    requires Increments(Body(defs[2])) == [b.counterVar] && Increments(Body(defs[3])) == []
    requires
      var counters := [a.counterVar, b.counterVar];
      && FromCounters(MemberReads(Body(defs[0])), counters) == [a]
      && FromCounters(MemberReads(Body(defs[2])), counters) == [b]
      && FromCounters(MemberReads(Body(defs[1])), counters) == []
      && FromCounters(MemberReads(Body(defs[3])), counters) == []
    ensures ContextOf(defs, events, structs) == Context(events, structs, [a, b])
  {
    hide Increments, MemberReads, FromCounters, Dedup, Body, BodyCounters, BodyAssignments, MocksOf;
    var c, counters := Context([], [], []), [a.counterVar, b.counterVar];
    OneCounter(a.counterVar);
    OneCounter(b.counterVar);
    NoDefs(counters, c, defs);
    NextDef(defs, 0, counters, c);
    NextDef(defs, 1, counters, c);
    NextDef(defs, 2, counters, c);
    NextDef(defs, 3, counters, c);
    assert defs[..4] == defs;
    assert BodyCounters(defs) == [] + [a.counterVar] + [] + [b.counterVar] + [] == counters;
    assert BodyAssignments(defs, counters) == [] + [a] + [] + [b] + [] == [a, b];
  }

  lemma {:induction false} ContextOfDecryption(visibility: string, mutability: string)
    ensures ContextOf(DecryptionFunctions(visibility, mutability), DecryptionEvents(), DecryptionStructs()) ==
      DecryptionContext()
    ensures DeclaredCounters(DecryptionFunctions(visibility, mutability)) ==
      ["publicDecryptionCounter", "userDecryptionCounter"]
  {
    hide Increments, MemberReads, FromCounters, ContextOf, DeclaredCounters, RequestBody, ResponseBody,
      DecryptionEvents, DecryptionStructs;
    var defs := DecryptionFunctions(visibility, mutability);
    FoundInFunctions(visibility, mutability);
    ContextOfFour(defs, Assignment("publicDecryptionCounter", "publicDecryptionId"),
                  Assignment("userDecryptionCounter", "userDecryptionId"), DecryptionEvents(), DecryptionStructs());
    CountersOfDefinitions(defs);
  }

  lemma {:induction false} CountersOfDefinitions(defs: seq<FunctionDef>)
    requires |defs| == 4 && forall def :: def in defs ==> def.before == [] && def.after == [] && def.body.Some?
    requires Increments(Body(defs[0])) == ["publicDecryptionCounter"] && Increments(Body(defs[1])) == []
    requires Increments(Body(defs[2])) == ["userDecryptionCounter"] && Increments(Body(defs[3])) == []
    ensures DeclaredCounters(defs) == ["publicDecryptionCounter", "userDecryptionCounter"]
  {
    hide Increments, Dedup, Body, AsNode;
    forall def | def in defs
      ensures Increments([AsNode(def)]) == Increments(Body(def))
    {
      IncrementsOfDefinition(def);
    }
    var nodes := AsNodes(defs);
    NoneYet(nodes);
    NextChild(nodes, 0);
    NextChild(nodes, 1);
    NextChild(nodes, 2);
    NextChild(nodes, 3);
    assert nodes[..4] == nodes;
    var found := ["publicDecryptionCounter", "userDecryptionCounter"];
    assert Increments(nodes) == [] + ["publicDecryptionCounter"] + [] + ["userDecryptionCounter"] + [] == found;
    DedupIdempotent(found);
  }

  lemma {:induction false} FourMocks(
    defs: seq<FunctionDef>, c: Context, f: MockFunction, g: MockFunction, h: MockFunction, k: MockFunction)
    requires |defs| == 4 && Mocked(defs[1]) && Mocked(defs[2]) && Mocked(defs[3])
    requires MockOf(defs[0], Body(defs[0]), c) == Mock(f) && MockOf(defs[1], Body(defs[1]), c) == Mock(g)
    requires MockOf(defs[2], Body(defs[2]), c) == Mock(h) && MockOf(defs[3], Body(defs[3]), c) == Mock(k)
    ensures MocksOf(defs, c) == Some((if Mocked(defs[0]) then [f] else []) + [g, h, k])
  {
    hide *;
    var first := if Mocked(defs[0]) then [f] else [];
    NoDefs([], c, defs);
    NextMock(defs, 0, c, [], f);
    assert [] + first == first && defs[..4] == defs;
    NextMock(defs, 1, c, first, g);
    NextMock(defs, 2, c, first + [g], h);
    NextMock(defs, 3, c, first + [g] + [h], k);
    assert first + [g] + [h] + [k] == first + [g, h, k];
  }

  lemma {:induction false} NextMock(
    defs: seq<FunctionDef>, i: nat, c: Context, mocks: seq<MockFunction>, f: MockFunction)
    requires i < |defs| && MocksOf(defs[..i], c) == Some(mocks) && MockOf(defs[i], Body(defs[i]), c) == Mock(f)
    ensures MocksOf(defs[..i + 1], c) == Some(mocks + if Mocked(defs[i]) then [f] else [])
  {
    hide *;
    NextDef(defs, i, [], c);
    assert mocks + [] == mocks;
  }

  lemma {:induction false} AreMocked(visibility: string, mutability: string)
    ensures
      var defs := DecryptionFunctions(visibility, mutability);
      && defs == [PublicRequest(visibility, mutability), PublicResponse(), UserRequest(), UserResponse()]
      && Mocked(defs[1]) && Mocked(defs[2]) && Mocked(defs[3])
    ensures Mocked(PublicRequest(visibility, mutability)) <==>
      (visibility == "public" || visibility == "external") && mutability != "view" && mutability != "pure"
  {
    hide RequestBody, ResponseBody;
  }

  /**
   The mock of the Decryption contract: each request takes decryptionId from its own counter, and the responses take
   it from their input. A first function with another visibility or mutability is mocked exactly if it is public or
   external and neither view nor pure, and its visibility is printed.
   */
  lemma {:induction false} DecryptionIsMocked(visibility: string, mutability: string)
    ensures
      var defs := DecryptionFunctions(visibility, mutability);
      MocksOf(defs, ContextOf(defs, DecryptionEvents(), DecryptionStructs())) ==
        Some((if (visibility == "public" || visibility == "external") && mutability != "view" && mutability != "pure"
              then [PublicRequestMock(visibility)] else [])
             + [PublicResponseMock(), UserRequestMock(), UserResponseMock()])
  {
    hide *;
    var defs, c := DecryptionFunctions(visibility, mutability), DecryptionContext();
    ContextOfDecryption(visibility, mutability);
    MockOfPublicRequest(visibility, mutability);
    MockOfPublicResponse();
    MockOfUserRequest();
    MockOfUserResponse();
    AreMocked(visibility, mutability);
    FourMocks(defs, c, PublicRequestMock(visibility), PublicResponseMock(), UserRequestMock(), UserResponseMock());
  }

  /** The two counters of the mock are declared, with the types 1 and 2 in their first byte. */
  lemma DecryptionCountersAreDeclared()
    ensures
      var counters := DeclaredCounters(DecryptionFunctions("external", ""));
      && counters == ["publicDecryptionCounter", "userDecryptionCounter"]
      && InitialValue(counters[0]) == Pow256(31) && InitialValue(counters[1]) == 2 * Pow256(31)
  {
    hide *;
    ContextOfDecryption("external", "");
    FirstTwoInitialValues();
  }

  lemma FirstTwoInitialValues()
    ensures InitialValue("publicDecryptionCounter") == Pow256(31)
    ensures InitialValue("userDecryptionCounter") == 2 * Pow256(31)
  {
    hide *;
    InitialValues("publicDecryption", 1);
    InitialValues("userDecryption", 2);
    CounterNames();
  }

  lemma CounterNames()
    ensures "publicDecryption" + "Counter" == "publicDecryptionCounter"
    ensures "userDecryption" + "Counter" == "userDecryptionCounter"
  {
  }
}
