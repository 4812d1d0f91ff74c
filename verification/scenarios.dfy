/**
 * Worked examples: the operation exercised by the repository's own tests
 * (GET /test/{name} with an XML 200 response and a content-less default), a
 * response whose two JSON media types compete for one case key, and the
 * directive laws on concrete inputs.
 */
module Scenarios {
  import opened Wrappers
  import opened Json
  import opened Strings
  import opened Operations
  import opened ContentTypes
  import opened ResponseUnmarshal
  import opened PrimaryResponse
  import TemplateHelpers

  const Ok: Property := Property("ok", "bool", Schema("bool", []))
  const Tests: Property := Property("tests", "[]Test", Schema("[]Test", []))
  const TestResult: Schema := Schema("TestResult", [Ok, Tests])

  const Xml200: ResponseTypeDefinition :=
    ResponseTypeDefinition(TypeDefinition("XML200", "", TestResult), "200", "application/xml")
  const DefaultNoContent: ResponseTypeDefinition :=
    ResponseTypeDefinition(TypeDefinition("Default", "", Schema("struct{}", [])), "default", "")

  const TestResponses: map<string, ResponseRef> := map[
    "200" := ResponseRef(Some(Response({"application/xml"}))),
    "default" := ResponseRef(Some(Response({})))]

  function Directive(metadata: seq<string>): map<string, Extension>
  {
    map[DirectiveKey := RawMessage(Some(JObject(map[
      StatusCodeKey := JString("200"),
      ContentTypeKey := JString("application/xml"),
      MetadataPropertiesKey := JArray(JsonStrings(metadata))])))]
  }

  function GetTestByName(extensions: map<string, Extension>): Operation
  {
    Operation("getTestByName", TestResponses, extensions, Success([Xml200, DefaultNoContent]))
  }

  lemma TestResultNonMetadata()
    ensures NonMetadata(TestResult.properties, ["ok"]) == [Tests]
    ensures NonMetadata(TestResult.properties, []) == [Ok, Tests]
  {
    assert TestResult.properties[1..] == [Tests] && TestResult.properties[1..][1..] == [];
    assert NonMetadata([], ["ok"]) == [] && NonMetadata([], []) == [];
    assert NonMetadata([Tests], ["ok"]) == [Tests] + NonMetadata([], ["ok"]);
    assert NonMetadata([Tests], []) == [Tests] + NonMetadata([], []);
    assert NonMetadata([Ok, Tests], []) == [Ok] + NonMetadata([Tests], []);
  }

  lemma EnvelopeName()
    ensures DefaultReturnTypeName("getTestByName") == "*GetTestByNameResponse"
  {
    assert TemplateHelpers.UppercaseFirst("getTestByName") == "GetTestByName";
  }

  lemma SingletonSorted(k: string)
    ensures SortedElements({k}) == [k]
  {
    var r := SortedElements({k});
    assert k in r;
  }

  lemma SingletonCases(c: Clause)
    ensures Cases(map[c.key := c]) == [c]
  {
    SingletonSorted(c.key);
    assert map[c.key := c].Keys == {c.key};
  }

  /**
   * Classify on each media type genResponseUnmarshal lists, on an unlisted
   * one, and on a listed one spelled with different case.
   */
  lemma ClassifyExamples()
    ensures Classify("application/json") == Some(JSON) && Classify("text/x-json") == Some(JSON)
    ensures Classify("application/yaml") == Some(YAML)
    ensures Classify("application/xml") == Some(XML) && Classify("text/xml") == Some(XML)
    ensures Classify("application/octet-stream") == None
    ensures Classify("Application/JSON") == None
  {
  }

  /**
   * The switch for GET /test/{name}, given the type definitions Xml200 and an
   * assumed one (DefaultNoContent) for the content-less default response: the
   * XML decode for 200, then the no-op for default.
   */
  lemma TestOperationDispatch(extensions: map<string, Extension>)
    ensures GenResponseUnmarshal(GetTestByName(extensions))
      == Success(Switch([BuildUnmarshalCase(Xml200, XML), NoContentClause("default")]))
  {
    var handled, noContent := BuildUnmarshalCase(Xml200, XML), NoContentClause("default");
    TestOperationClauses();
    DispatchIsAssembly(GetTestByName(extensions));
    AssembleHandledThenUnhandled(handled, noContent);
  }

  lemma TestOperationClauses()
    ensures Clauses([Xml200, DefaultNoContent], TestResponses)
      == [BuildUnmarshalCase(Xml200, XML), NoContentClause("default")]
  {
    Xml200Clauses();
    DefaultClauses();
    ClausesOfTwo(Xml200, DefaultNoContent, TestResponses);
  }

  lemma Xml200Clauses()
    ensures ClausesForDefinition(Xml200, TestResponses) == [BuildUnmarshalCase(Xml200, XML)]
  {
    SingletonSorted("application/xml");
    assert DeclaredContent(TestResponses, "200") == Some({"application/xml"});
    assert Classify("application/xml") == Some(XML);
    assert ClauseForContentType(Xml200, "application/xml") == [BuildUnmarshalCase(Xml200, XML)];
    assert ClausesForContentTypes(Xml200, ["application/xml"])
      == ClauseForContentType(Xml200, "application/xml") + ClausesForContentTypes(Xml200, []);
  }

  lemma DefaultClauses()
    ensures ClausesForDefinition(DefaultNoContent, TestResponses) == [NoContentClause("default")]
  {
    assert DeclaredContent(TestResponses, "default") == Some({});
  }

  lemma ClausesOfTwo(t1: ResponseTypeDefinition, t2: ResponseTypeDefinition, responses: map<string, ResponseRef>)
    ensures Clauses([t1, t2], responses) == ClausesForDefinition(t1, responses) + ClausesForDefinition(t2, responses)
  {
    var tds := [t1, t2];
    assert tds[1..] == [t2] && tds[1..][1..] == [];
    assert Clauses([t2], responses) == ClausesForDefinition(t2, responses) + Clauses([], responses);
  }

  /** The map of one group after two writes. */
  lemma StoreOfTwo(a: Clause, b: Clause, g: Group)
    ensures Store([a, b], g) ==
      if a.group == g && b.group == g then map[a.key := a][b.key := b]
      else if a.group == g then map[a.key := a]
      else if b.group == g then map[b.key := b]
      else map[]
  {
    assert [a, b][..1] == [a] && [a][..0] == [];
    assert Store([a], g) == if a.group == g then Store([], g)[a.key := a] else Store([], g);
    assert Store([a, b], g) == if b.group == g then Store([a], g)[b.key := b] else Store([a], g);
  }

  lemma AssembleHandledThenUnhandled(a: Clause, b: Clause)
    requires a.group == Handled && b.group == Unhandled
    ensures Assemble([a, b]) == Switch([a, b])
  {
    StoreOfTwo(a, b, Handled);
    StoreOfTwo(a, b, Unhandled);
    SingletonCases(a);
    SingletonCases(b);
  }

  lemma AssembleSameKey(a: Clause, b: Clause)
    requires a.group == Handled && b.group == Handled && a.key == b.key
    ensures Assemble([a, b]) == Switch([b])
  {
    StoreOfTwo(a, b, Handled);
    StoreOfTwo(a, b, Unhandled);
    assert map[a.key := a][b.key := b] == map[b.key := b];
    SingletonCases(b);
    assert Cases(map[]) == [];
  }

  /** The test file's directive parses to status 200, application/xml, metadata ["ok"]. */
  lemma TestDirectiveParses()
    ensures ParsePrimaryResponseInfo(Directive(["ok"]))
      == Success(Some(PrimaryResponseInfo("200", "application/xml", ["ok"])))
  {
    ParseEncodeRoundTrip(PrimaryResponseInfo("200", "application/xml", ["ok"]), map[]);
    assert Directive(["ok"]) == map[][DirectiveKey := RawMessage(Some(EncodePrimaryResponseInfo(
      PrimaryResponseInfo("200", "application/xml", ["ok"]))))];
  }

  /** The primary definition of GET /test/{name} is the XML 200 one, with properties "ok" and "tests". */
  lemma TestPrimaryDefinition()
    ensures PrimaryResponseTypeDefinition(GetTestByName(Directive(["ok"])))
      == Success(Some((PrimaryResponseInfo("200", "application/xml", ["ok"]), Xml200)))
    ensures seq(|Xml200.definition.schema.properties|, i requires 0 <= i < |Xml200.definition.schema.properties| =>
      Xml200.definition.schema.properties[i].jsonFieldName) == ["ok", "tests"]
  {
    TestDirectiveParses();
    var info := PrimaryResponseInfo("200", "application/xml", ["ok"]);
    assert FirstMatch([Xml200, DefaultNoContent], info) == Some(0);
  }

  /** With "ok" as metadata, the return type flattens to the type of "tests". */
  lemma TestOperationFlattens()
    ensures ReturnTypeName(GetTestByName(Directive(["ok"]))) == Success("[]Test")
  {
    TestDirectiveParses();
    var info := PrimaryResponseInfo("200", "application/xml", ["ok"]);
    assert FirstMatch([Xml200, DefaultNoContent], info) == Some(0);
    TestResultNonMetadata();
  }

  /** With no metadata, both properties remain and the envelope type is kept. */
  lemma TestOperationWithoutMetadataKeepsEnvelope()
    ensures ReturnTypeName(GetTestByName(Directive([]))) == Success("*GetTestByNameResponse")
  {
    var info := PrimaryResponseInfo("200", "application/xml", []);
    ParseEncodeRoundTrip(info, map[]);
    assert Directive([]) == map[][DirectiveKey := RawMessage(Some(EncodePrimaryResponseInfo(info)))];
    assert FirstMatch([Xml200, DefaultNoContent], info) == Some(0);
    TestResultNonMetadata();
    EnvelopeName();
  }

  /** Without the extension the envelope type is kept and nothing fails. */
  lemma NoDirectiveKeepsEnvelope()
    ensures PrimaryResponseTypeDefinition(GetTestByName(map[])) == Success(None)
    ensures ReturnTypeName(GetTestByName(map[])) == Success("*GetTestByNameResponse")
  {
    EnvelopeName();
  }

  /** A directive naming a response the operation does not declare is an error. */
  lemma MissingResponseFails()
    ensures PrimaryResponseTypeDefinition(GetTestByName(map[DirectiveKey := RawMessage(Some(JObject(map[
      StatusCodeKey := JString("404"), ContentTypeKey := JString("application/xml")])))])) == Failure(NoPrimaryMatch)
  {
    var info := PrimaryResponseInfo("404", "application/xml", []);
    assert FirstMatch([Xml200, DefaultNoContent], info) == None;
  }

  const JsonA: ResponseTypeDefinition :=
    ResponseTypeDefinition(TypeDefinition("JSON200", "", Schema("Pet", [])), "200", "application/json")
  const JsonB: ResponseTypeDefinition :=
    ResponseTypeDefinition(TypeDefinition("TextxJSON200", "", Schema("Pet", [])), "200", "text/x-json")
  const TwoJsonResponses: map<string, ResponseRef> := map[
    "200" := ResponseRef(Some(Response({"application/json", "text/x-json"})))]

  /**
   * Both JSON media types of one response write the key "9.json.200"; the
   * later definition's clause silently replaces the earlier one.
   */
  lemma TwoJsonMediaTypesLastWriteWins()
    ensures GenResponseUnmarshal(Operation("getPet", TwoJsonResponses, map[], Success([JsonA, JsonB])))
      == Success(Switch([BuildUnmarshalCase(JsonB, JSON)]))
  {
    var a, b := BuildUnmarshalCase(JsonA, JSON), BuildUnmarshalCase(JsonB, JSON);
    TwoJsonClauses();
    DispatchIsAssembly(Operation("getPet", TwoJsonResponses, map[], Success([JsonA, JsonB])));
    AssembleSameKey(a, b);
  }

  lemma TwoJsonSorted()
    ensures SortedElements({"application/json", "text/x-json"}) == ["application/json", "text/x-json"]
  {
    var sorted := ["application/json", "text/x-json"];
    assert Less("application/json", "text/x-json");
    assert StrictlySorted(sorted);
    assert {"application/json", "text/x-json"} == set x | x in sorted;
    SortedUnique(SortedElements({"application/json", "text/x-json"}), sorted);
  }

  lemma JsonClausesOf(td: ResponseTypeDefinition)
    requires td.definition.typeName != "interface{}"
    requires td.responseName == "200"
    requires td.contentTypeName == "application/json" || td.contentTypeName == "text/x-json"
    ensures ClausesForDefinition(td, TwoJsonResponses) == [BuildUnmarshalCase(td, JSON)]
  {
    var sorted := ["application/json", "text/x-json"];
    TwoJsonSorted();
    assert DeclaredContent(TwoJsonResponses, td.responseName) == Some({"application/json", "text/x-json"});
    assert Classify("application/json") == Some(JSON) && Classify("text/x-json") == Some(JSON);
    assert ClausesForContentTypes(td, sorted)
      == ClauseForContentType(td, sorted[0]) + (ClauseForContentType(td, sorted[1]) + ClausesForContentTypes(td, []));
  }

  lemma TwoJsonClauses()
    ensures Clauses([JsonA, JsonB], TwoJsonResponses) == [BuildUnmarshalCase(JsonA, JSON), BuildUnmarshalCase(JsonB, JSON)]
  {
    JsonClausesOf(JsonA);
    JsonClausesOf(JsonB);
    ClausesOfTwo(JsonA, JsonB, TwoJsonResponses);
  }
}
