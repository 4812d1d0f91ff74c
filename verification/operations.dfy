/**
 * The parts of an OpenAPI operation definition the response helpers read.
 * Values that the surrounding generator computes (Go type declarations,
 * variable names, the list of response type definitions) appear here as
 * fields, already computed.
 */
module Operations {
  import opened Wrappers
  import opened Json

  /** A generated Go schema: its type declaration and its object properties. */
  datatype Schema = Schema(typeDecl: string, properties: seq<Property>)

  /** An object property; `goTypeDef` is what Property.GoTypeDef() returns. */
  datatype Property = Property(jsonFieldName: string, goTypeDef: string, schema: Schema)

  datatype TypeDefinition = TypeDefinition(typeName: string, jsonName: string, schema: Schema)

  /** A type definition derived from one (response, content type) pair. */
  datatype ResponseTypeDefinition =
    ResponseTypeDefinition(definition: TypeDefinition, responseName: string, contentTypeName: string)

  /** A declared response; `content` holds the keys of its content map. */
  datatype Response = Response(content: set<string>)

  /** A response reference whose `Value` may be nil. */
  datatype ResponseRef = ResponseRef(value: Option<Response>)

  /**
   * A value in the operation's extension map. Only json.RawMessage values are
   * read; `decoded` is None when the raw text is not valid JSON.
   */
  datatype Extension = RawMessage(decoded: Option<Value>) | OtherExtension

  datatype ParameterDefinition = ParameterDefinition(goVariableName: string, typeDef: string)

  /**
   * `typeDefinitions` is the outcome of GetResponseTypeDefinitions, which is
   * not part of this model: its error message, or its list in order.
   */
  datatype Operation = Operation(
    operationId: string,
    responses: map<string, ResponseRef>,
    extensions: map<string, Extension>,
    typeDefinitions: Result<seq<ResponseTypeDefinition>, string>)

  /** Why a helper panics. */
  datatype Error =
    | TypeDefinitionsFailed(message: string)
    | MalformedDirective
    | NotAnObject(got: Value)
    | MissingKey(key: string)
    | NotAString(key: string, got: Value)
    | NotAnArray(key: string, got: Value)
    | NotAStringElement(index: nat, got: Value)
    | NoPrimaryMatch

  /** getResponseTypeDefinitions: the list, or a panic carrying the error. */
  function ResponseTypeDefinitions(op: Operation): (r: Result<seq<ResponseTypeDefinition>, Error>)
    ensures r.Success? <==> op.typeDefinitions.Success?
    ensures r.Success? ==> r.value == op.typeDefinitions.value
    ensures r.Failure? ==> r.error == TypeDefinitionsFailed(op.typeDefinitions.error)
  {
    match op.typeDefinitions
    case Success(tds) => Success(tds)
    case Failure(message) => Failure(TypeDefinitionsFailed(message))
  }
}
