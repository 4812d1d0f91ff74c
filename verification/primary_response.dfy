/**
 * The x-primary-response operation extension: a directive naming one
 * (status code, content type) response as the operation's main payload and
 * listing the metadata properties of its schema. When exactly one property
 * is not metadata, the client's return type flattens to that property.
 */
module PrimaryResponse {
  import opened Wrappers
  import opened Json
  import opened Operations
  import opened TemplateHelpers

  const DirectiveKey: string := "x-primary-response"
  const StatusCodeKey: string := "status-code"
  const ContentTypeKey: string := "content-type"
  const MetadataPropertiesKey: string := "metadata-properties"

  datatype PrimaryResponseInfo = PrimaryResponseInfo(statusCode: string, contentType: string, metadataProperties: seq<string>)

  function JsonStrings(ss: seq<string>): seq<Value>
  {
    seq(|ss|, i requires 0 <= i < |ss| => JString(ss[i]))
  }

  /** json.Unmarshal into map[string]interface{}: null leaves the map nil, i.e. without keys. */
  function DirectiveMembers(v: Value): (r: Result<map<string, Value>, Error>)
    ensures r.Success? <==> v.JObject? || v.JNull?
    ensures v.JObject? ==> r == Success(v.members)
    ensures v.JNull? ==> r.Success? && r.value.Keys == {}
    ensures r.Failure? ==> r.error == NotAnObject(v)
  {
    match v
    case JObject(members) => Success(members)
    case JNull => Success(map[])
    case _ => Failure(NotAnObject(v))
  }

  /** The required-string check getPrimaryResponseInfo makes for status-code and content-type. */
  function RequiredString(members: map<string, Value>, key: string): (r: Result<string, Error>)
    ensures r.Success? <==> key in members && members[key].JString?
    ensures r.Success? ==> members[key] == JString(r.value)
    ensures key !in members ==> r == Failure(MissingKey(key))
    ensures key in members && !members[key].JString? ==> r == Failure(NotAString(key, members[key]))
  {
    if key !in members then Failure(MissingKey(key))
    else if members[key].JString? then Success(members[key].str)
    else Failure(NotAString(key, members[key]))
  }

  /**
   * The elements of metadata-properties, which must all be strings; the
   * first element that is not one is reported.
   */
  function StringElements(xs: seq<Value>): (r: Result<seq<string>, Error>)
    ensures r.Success? <==> forall i | 0 <= i < |xs| :: xs[i].JString?
    ensures r.Success? ==> JsonStrings(r.value) == xs
    ensures r.Failure? ==>
      && r.error.NotAStringElement?
      && r.error.index < |xs|
      && xs[r.error.index] == r.error.got
      && !r.error.got.JString?
      && forall j | 0 <= j < r.error.index :: xs[j].JString?
  {
    if |xs| == 0 then Success([])
    else
      var init :- StringElements(xs[..|xs| - 1]);
      var last := xs[|xs| - 1];
      if last.JString? then
        assert xs == xs[..|xs| - 1] + [last];
        Success(init + [last.str])
      else Failure(NotAStringElement(|xs| - 1, last))
  }

  /** The shape the directive must have for parsing to succeed. */
  ghost predicate WellFormedDirective(v: Value)
  {
    && v.JObject?
    && StatusCodeKey in v.members && v.members[StatusCodeKey].JString?
    && ContentTypeKey in v.members && v.members[ContentTypeKey].JString?
    && (MetadataPropertiesKey in v.members ==>
          && v.members[MetadataPropertiesKey].JArray?
          && forall i | 0 <= i < |v.members[MetadataPropertiesKey].elements| ::
               v.members[MetadataPropertiesKey].elements[i].JString?)
  }

  /** `info` holds exactly what the directive `v` says, an absent list reading as empty. */
  ghost predicate Describes(v: Value, info: PrimaryResponseInfo)
  {
    && v.JObject?
    && StatusCodeKey in v.members && v.members[StatusCodeKey] == JString(info.statusCode)
    && ContentTypeKey in v.members && v.members[ContentTypeKey] == JString(info.contentType)
    && (MetadataPropertiesKey !in v.members ==> info.metadataProperties == [])
    && (MetadataPropertiesKey in v.members ==> v.members[MetadataPropertiesKey] == JArray(JsonStrings(info.metadataProperties)))
  }

  /**
   * getPrimaryResponseInfo. None when the extension is absent or not a raw
   * JSON message; a failure (the source panics) for every malformed shape.
   */
  function ParsePrimaryResponseInfo(extensions: map<string, Extension>): (r: Result<Option<PrimaryResponseInfo>, Error>)
    ensures r == Success(None) <==> DirectiveKey !in extensions || !extensions[DirectiveKey].RawMessage?
    ensures DirectiveKey in extensions && extensions[DirectiveKey].RawMessage? ==>
      var decoded := extensions[DirectiveKey].decoded;
      && (r.Success? <==> decoded.Some? && WellFormedDirective(decoded.value))
      && (r.Success? ==> r.value.Some? && Describes(decoded.value, r.value.value))
      && (decoded.None? ==> r == Failure(MalformedDirective))
      && (decoded == Some(JNull) ==> r == Failure(MissingKey(StatusCodeKey)))
      && (decoded.Some? && decoded.value.JObject? && StatusCodeKey !in decoded.value.members ==>
            r == Failure(MissingKey(StatusCodeKey)))
      && (decoded.Some? && decoded.value.JObject? && StatusCodeKey in decoded.value.members ==>
            var status := decoded.value.members[StatusCodeKey];
            && (!status.JString? ==> r == Failure(NotAString(StatusCodeKey, status)))
            && (status.JString? && ContentTypeKey !in decoded.value.members ==> r == Failure(MissingKey(ContentTypeKey))))
    ensures DirectiveKey in extensions && extensions[DirectiveKey].RawMessage? && extensions[DirectiveKey].decoded.Some? ==>
      var v := extensions[DirectiveKey].decoded.value;
      && (!v.JObject? && !v.JNull? ==> r == Failure(NotAnObject(v)))
      && (v.JObject? && StatusCodeKey in v.members && v.members[StatusCodeKey].JString? && ContentTypeKey in v.members ==>
            var contentType := v.members[ContentTypeKey];
            && (!contentType.JString? ==> r == Failure(NotAString(ContentTypeKey, contentType)))
            && (contentType.JString? && MetadataPropertiesKey in v.members ==>
                  var metadata := v.members[MetadataPropertiesKey];
                  && (!metadata.JArray? ==> r == Failure(NotAnArray(MetadataPropertiesKey, metadata)))
                  && (metadata.JArray? && (exists i | 0 <= i < |metadata.elements| :: !metadata.elements[i].JString?) ==>
                        && r.Failure? && r.error.NotAStringElement?
                        && r.error.index < |metadata.elements|
                        && metadata.elements[r.error.index] == r.error.got
                        && !r.error.got.JString?
                        && forall j | 0 <= j < r.error.index :: metadata.elements[j].JString?)))
  {
    if DirectiveKey !in extensions || !extensions[DirectiveKey].RawMessage? then Success(None)
    else
      match extensions[DirectiveKey].decoded
      case None => Failure(MalformedDirective)
      case Some(v) =>
        var members :- DirectiveMembers(v);
        var statusCode :- RequiredString(members, StatusCodeKey);
        var contentType :- RequiredString(members, ContentTypeKey);
        if MetadataPropertiesKey !in members then
          Success(Some(PrimaryResponseInfo(statusCode, contentType, [])))
        else
          match members[MetadataPropertiesKey]
          case JArray(xs) =>
            var props :- StringElements(xs);
            Success(Some(PrimaryResponseInfo(statusCode, contentType, props)))
          case other => Failure(NotAnArray(MetadataPropertiesKey, other))
  }

  /** The directive as an operation author writes it. */
  function EncodePrimaryResponseInfo(info: PrimaryResponseInfo): Value
  {
    JObject(map[
      StatusCodeKey := JString(info.statusCode),
      ContentTypeKey := JString(info.contentType),
      MetadataPropertiesKey := JArray(JsonStrings(info.metadataProperties))])
  }

  lemma JsonStringsInjective(a: seq<string>, b: seq<string>)
    requires JsonStrings(a) == JsonStrings(b)
    ensures a == b
  {
    assert |a| == |JsonStrings(a)|;
    forall i | 0 <= i < |a|
      ensures a[i] == b[i]
    {
      assert JsonStrings(a)[i] == JsonStrings(b)[i];
    }
  }

  /** Parsing a written directive gives back what was written, metadata order included. */
  lemma ParseEncodeRoundTrip(info: PrimaryResponseInfo, extensions: map<string, Extension>)
    ensures ParsePrimaryResponseInfo(extensions[DirectiveKey := RawMessage(Some(EncodePrimaryResponseInfo(info)))])
      == Success(Some(info))
  {
    var xs := JsonStrings(info.metadataProperties);
    var v := EncodePrimaryResponseInfo(info);
    assert v.members[MetadataPropertiesKey] == JArray(xs);
    var parsed := StringElements(xs);
    assert parsed.Success?;
    JsonStringsInjective(parsed.value, info.metadataProperties);
  }

  predicate MatchesInfo(td: ResponseTypeDefinition, info: PrimaryResponseInfo): (r: bool)
    ensures r <==> (td.responseName, td.contentTypeName) == (info.statusCode, info.contentType)
  {
    td.responseName == info.statusCode && td.contentTypeName == info.contentType
  }

  /** The index of the first type definition the directive names. */
  function FirstMatch(tds: seq<ResponseTypeDefinition>, info: PrimaryResponseInfo): (r: Option<nat>)
    ensures r.Some? ==>
      && r.value < |tds|
      && MatchesInfo(tds[r.value], info)
      && forall j | 0 <= j < r.value :: !MatchesInfo(tds[j], info)
    ensures r.None? ==> forall j | 0 <= j < |tds| :: !MatchesInfo(tds[j], info)
  {
    if |tds| == 0 then None
    else if MatchesInfo(tds[0], info) then Some(0)
    else
      match FirstMatch(tds[1..], info)
      case Some(k) => Some(k + 1)
      case None => None
  }

  /**
   * getPrimaryResponseTypeDefinition, returned with the directive it was
   * resolved from: None without a directive, otherwise the first type
   * definition matching both status code and content type, and a failure
   * when none does.
   */
  function PrimaryResponseTypeDefinition(op: Operation): (r: Result<Option<(PrimaryResponseInfo, ResponseTypeDefinition)>, Error>)
    ensures var parsed := ParsePrimaryResponseInfo(op.extensions);
      && (parsed.Failure? ==> r == Failure(parsed.error))
      && (parsed == Success(None) <==> r == Success(None))
      && (parsed.Success? && parsed.value.Some? ==>
            var info := parsed.value.value;
            && (op.typeDefinitions.Failure? ==> r == Failure(TypeDefinitionsFailed(op.typeDefinitions.error)))
            && (op.typeDefinitions.Success? ==>
                  var tds := op.typeDefinitions.value;
                  && (r == Failure(NoPrimaryMatch) <==> forall j | 0 <= j < |tds| :: !MatchesInfo(tds[j], info))
                  && (r.Success? <==> exists j | 0 <= j < |tds| :: MatchesInfo(tds[j], info))
                  && (r.Success? ==>
                        && r.value.Some? && r.value.value.0 == info
                        && exists k | 0 <= k < |tds| ::
                             && tds[k] == r.value.value.1
                             && MatchesInfo(tds[k], info)
                             && forall j | 0 <= j < k :: !MatchesInfo(tds[j], info))))
  {
    var info :- ParsePrimaryResponseInfo(op.extensions);
    match info
    case None => Success(None)
    case Some(i) =>
      var tds :- ResponseTypeDefinitions(op);
      match FirstMatch(tds, i)
      case None => Failure(NoPrimaryMatch)
      case Some(k) => Success(Some((i, tds[k])))
  }

  /** Reference definition: the properties not listed as metadata, in order. */
  function NonMetadata(props: seq<Property>, metadata: seq<string>): (r: seq<Property>)
    ensures forall p | p in r :: p in props && p.jsonFieldName !in metadata
    ensures forall p | p in props && p.jsonFieldName !in metadata :: p in r
  {
    if |props| == 0 then []
    else if props[0].jsonFieldName !in metadata then [props[0]] + NonMetadata(props[1..], metadata)
    else NonMetadata(props[1..], metadata)
  }

  /**
   * The loop of getSingleNonMetadataProperty: `found` is the non-metadata
   * property seen so far; a second one ends the scan with nil.
   */
  function ScanSingle(props: seq<Property>, metadata: seq<string>, found: Option<Property>): (r: Option<Property>)
    ensures r.Some? ==> r == found || (r.value in props && r.value.jsonFieldName !in metadata)
  {
    if |props| == 0 then found
    else if props[0].jsonFieldName !in metadata then
      if found.Some? then None else ScanSingle(props[1..], metadata, Some(props[0]))
    else ScanSingle(props[1..], metadata, found)
  }

  lemma {:induction false} ScanSingleCorrect(props: seq<Property>, metadata: seq<string>, found: Option<Property>)
    ensures var rest := NonMetadata(props, metadata);
      && (found.None? ==> ScanSingle(props, metadata, found) == if |rest| == 1 then Some(rest[0]) else None)
      && (found.Some? ==> ScanSingle(props, metadata, found) == if |rest| == 0 then found else None)
  {
    if |props| > 0 {
      ScanSingleCorrect(props[1..], metadata, found);
      if props[0].jsonFieldName !in metadata && found.None? {
        ScanSingleCorrect(props[1..], metadata, Some(props[0]));
      }
    }
  }

  /**
   * The loop of getSingleNonMetadataProperty as written, with the one loop
   * variable that Go before version 1.22 shares between all iterations:
   * `ret = &prop` points at that variable, so every later iteration, metadata
   * or not, overwrites what `ret` refers to. `loopVar` is the variable's
   * value and `retSet` says whether `ret` points at it.
   */
  function ScanSharedLoopVar(props: seq<Property>, metadata: seq<string>, loopVar: Option<Property>, retSet: bool): (r: Option<Property>)
    ensures r.Some? ==> r.value in props || r == loopVar
  {
    if |props| == 0 then (if retSet then loopVar else None)
    else if props[0].jsonFieldName !in metadata then
      if retSet then None else ScanSharedLoopVar(props[1..], metadata, Some(props[0]), true)
    else ScanSharedLoopVar(props[1..], metadata, Some(props[0]), retSet)
  }

  lemma {:induction false} ScanSharedLoopVarResult(props: seq<Property>, metadata: seq<string>, loopVar: Option<Property>, retSet: bool)
    ensures var rest := NonMetadata(props, metadata);
      && (!retSet ==>
            ScanSharedLoopVar(props, metadata, loopVar, retSet) == if |rest| == 1 then Some(props[|props| - 1]) else None)
      && (retSet ==>
            ScanSharedLoopVar(props, metadata, loopVar, retSet)
              == if |rest| > 0 then None else if |props| == 0 then loopVar else Some(props[|props| - 1]))
  {
    if |props| > 0 {
      var tail := props[1..];
      assert |tail| > 0 ==> tail[|tail| - 1] == props[|props| - 1];
      ScanSharedLoopVarResult(tail, metadata, Some(props[0]), retSet);
      if props[0].jsonFieldName !in metadata && !retSet {
        ScanSharedLoopVarResult(tail, metadata, Some(props[0]), true);
      }
    }
  }

  /**
   * getSingleNonMetadataProperty as written: when exactly one property is not
   * metadata, the property returned is the LAST one of the schema, which is
   * that candidate only when the candidate comes last.
   */
  function SingleNonMetadataPropertyAsWritten(td: TypeDefinition, info: PrimaryResponseInfo): (r: Option<Property>)
    ensures var props := td.schema.properties;
      var rest := NonMetadata(props, info.metadataProperties);
      r == if |rest| == 1 then Some(props[|props| - 1]) else None
  {
    ScanSharedLoopVarResult(td.schema.properties, info.metadataProperties, None, false);
    ScanSharedLoopVar(td.schema.properties, info.metadataProperties, None, false)
  }

  /** The code as written agrees with the intended result exactly when no candidate precedes the last property. */
  lemma AsWrittenAgreesWhenCandidateIsLast(td: TypeDefinition, info: PrimaryResponseInfo)
    ensures var props := td.schema.properties;
      var rest := NonMetadata(props, info.metadataProperties);
      (SingleNonMetadataPropertyAsWritten(td, info) == SingleNonMetadataProperty(td, info))
        <==> (|rest| != 1 || rest[0] == props[|props| - 1])
  {
  }

  /** Properties [ok, tests] with "tests" as metadata: the code as written returns "tests", not "ok". */
  lemma SharedLoopVarReturnsLastProperty()
    ensures var ok := Property("ok", "bool", Schema("bool", []));
      var tests := Property("tests", "[]Test", Schema("[]Test", []));
      var td := TypeDefinition("TestResult", "", Schema("TestResult", [ok, tests]));
      var info := PrimaryResponseInfo("200", "application/xml", ["tests"]);
      && SingleNonMetadataPropertyAsWritten(td, info) == Some(tests)
      && SingleNonMetadataProperty(td, info) == Some(ok)
  {
    var ok := Property("ok", "bool", Schema("bool", []));
    var tests := Property("tests", "[]Test", Schema("[]Test", []));
    var props := [ok, tests];
    assert props[1..] == [tests] && props[1..][1..] == [];
    assert NonMetadata([], ["tests"]) == [];
    assert NonMetadata([tests], ["tests"]) == NonMetadata([], ["tests"]);
    assert NonMetadata(props, ["tests"]) == [ok] + NonMetadata([tests], ["tests"]);
  }

  /**
   * getSingleNonMetadataProperty as its doc comment describes it: the
   * property when exactly one property is not metadata; None when there are
   * none or several. The code as written differs when the candidate is not
   * the last property (SingleNonMetadataPropertyAsWritten); the rest of the
   * model uses this intended result.
   */
  function SingleNonMetadataProperty(td: TypeDefinition, info: PrimaryResponseInfo): (r: Option<Property>)
    ensures var rest := NonMetadata(td.schema.properties, info.metadataProperties);
      r == if |rest| == 1 then Some(rest[0]) else None
  {
    ScanSingleCorrect(td.schema.properties, info.metadataProperties, None);
    ScanSingle(td.schema.properties, info.metadataProperties, None)
  }

  /** isFlatTypeDefinition: a type without properties (an integer, a string, ...). */
  predicate IsFlatTypeDefinition(td: TypeDefinition): (r: bool)
    ensures r <==> forall p :: p !in td.schema.properties
  {
    assert |td.schema.properties| > 0 ==> td.schema.properties[0] in td.schema.properties;
    |td.schema.properties| == 0
  }

  /**
   * The outcome of asReducedTypeDefinition: flattened to the single
   * non-metadata property, or the original names with the metadata
   * properties purged (the regenerated schema itself is not modelled).
   */
  datatype ReducedTypeDefinition =
    | Flattened(definition: TypeDefinition)
    | Purged(typeName: string, jsonName: string, keptPropertyNames: set<string>)

  function AsReducedTypeDefinition(td: ResponseTypeDefinition, info: PrimaryResponseInfo): (r: ReducedTypeDefinition)
    ensures var rest := NonMetadata(td.definition.schema.properties, info.metadataProperties);
      && (r.Flattened? <==> |rest| == 1)
      && (r.Flattened? ==> r.definition == TypeDefinition(rest[0].jsonFieldName, rest[0].jsonFieldName, rest[0].schema))
    ensures r.Purged? ==>
      && r.typeName == td.definition.typeName
      && r.jsonName == td.definition.jsonName
      && (forall n | n in r.keptPropertyNames :: n !in info.metadataProperties)
      && (forall p | p in td.definition.schema.properties && p.jsonFieldName !in info.metadataProperties ::
            p.jsonFieldName in r.keptPropertyNames)
      && (forall n | n in r.keptPropertyNames ::
            exists p | p in td.definition.schema.properties :: p.jsonFieldName == n)
  {
    match SingleNonMetadataProperty(td.definition, info)
    case Some(prop) => Flattened(TypeDefinition(prop.jsonFieldName, prop.jsonFieldName, prop.schema))
    case None =>
      Purged(td.definition.typeName, td.definition.jsonName,
        set p | p in td.definition.schema.properties && p.jsonFieldName !in info.metadataProperties :: p.jsonFieldName)
  }

  /** A flat type is never flattened further: it reduces to its own names with no property kept. */
  lemma FlatReducesToEmptyPurge(td: ResponseTypeDefinition, info: PrimaryResponseInfo)
    requires IsFlatTypeDefinition(td.definition)
    ensures AsReducedTypeDefinition(td, info) == Purged(td.definition.typeName, td.definition.jsonName, {})
  {
    var r := AsReducedTypeDefinition(td, info);
    assert |NonMetadata(td.definition.schema.properties, info.metadataProperties)| == 0;
    assert r.Purged?;
    assert forall n | n in r.keptPropertyNames :: exists p | p in td.definition.schema.properties :: p.jsonFieldName == n;
  }

  /** The envelope type every client method returns unless flattened. */
  function DefaultReturnTypeName(operationId: string): (r: string)
    ensures r == "*" + UppercaseFirst(GenResponseTypeName(operationId))
    ensures r[1..] == GenResponseTypeName(operationId)
  {
    "*" + GenResponseTypeName(operationId)
  }

  /**
   * genReturnTypeName: the single non-metadata property's Go type when the
   * primary response flattens, otherwise the envelope pointer type.
   */
  function ReturnTypeName(op: Operation): (r: Result<string, Error>)
    ensures r.Failure? <==> PrimaryResponseTypeDefinition(op).Failure?
    ensures r.Failure? ==> r.error == PrimaryResponseTypeDefinition(op).error
    ensures PrimaryResponseTypeDefinition(op) == Success(None) ==> r == Success(DefaultReturnTypeName(op.operationId))
    ensures PrimaryResponseTypeDefinition(op).Success? && PrimaryResponseTypeDefinition(op).value.Some? ==>
      var (info, td) := PrimaryResponseTypeDefinition(op).value.value;
      var rest := NonMetadata(td.definition.schema.properties, info.metadataProperties);
      r == Success(if |rest| == 1 then rest[0].goTypeDef else DefaultReturnTypeName(op.operationId))
  {
    var defaultName := "*" + UppercaseFirst(GenResponseTypeName(op.operationId));
    var resolved :- PrimaryResponseTypeDefinition(op);
    match resolved
    case None => Success(defaultName)
    case Some((info, td)) =>
      match SingleNonMetadataProperty(td.definition, info)
      case None => Success(defaultName)
      case Some(prop) => Success(prop.goTypeDef)
  }
}
