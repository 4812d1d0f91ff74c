# Response-handling template helpers of oapi-codegen, in Dafny

oapi-codegen turns an OpenAPI document into Go code. While it renders its
client templates, it calls a set of helper functions from
`pkg/codegen/template_helpers.go`. This project models the helpers that
decide how a client handles a response, and proves properties of the model:

- **Runtime dispatch** (`genResponseUnmarshal` and friends). For every
  response type definition of an operation, the generator writes case
  clauses into two Go maps: handled decode clauses and unhandled no-op
  clauses. A later write under the same key silently replaces an earlier
  one. It then emits one `switch`: the handled clauses first, then the
  unhandled ones, each group in ascending key order. A clause's condition
  is built by `getConditionOfResponseName`. A content type is recognised
  as JSON, YAML or XML from three fixed media-type lists.
- **The `x-primary-response` directive.** An operation extension names one
  (status code, content type) response as the main payload and lists the
  metadata properties of its schema. `getPrimaryResponseInfo` parses it.
  `getPrimaryResponseTypeDefinition` resolves it against the operation's
  type definitions. When exactly one property is not metadata, the
  generated client method returns that property's Go type
  (`genReturnTypeName`, `getSingleNonMetadataProperty`,
  `asReducedTypeDefinition`). The code as written returns the schema's
  last property instead; the model uses the intended result and records
  the discrepancy under "Findings".
- **String helpers**: the parameter-list helpers `genParamArgs`,
  `genParamTypes` and `genParamNames`, plus `genResponseTypeName`,
  `stripNewLines` and `toStringArray`.

Modules:

- `Wrappers`: `Option` and `Result`.
- `Strings`: `Join`; lexicographic order by code point, which agrees with
  Go's byte-wise string order on UTF-8; the sorted sequence of a set.
- `Json`: a decoded JSON value.
- `Operations`: the entities the helpers read.
- `ContentTypes`, `StatusConditions`, `ResponseUnmarshal`,
  `PrimaryResponse`, `TemplateHelpers`: the core.
- `Scenarios`: worked examples, including the operation used by the
  repository's tests.

Every Go `panic` of the core becomes a `Failure` carrying an `Error`. Nil
results become `None`. A Go map of case clauses becomes a Dafny `map`
built from the ordered sequence of writes (`ResponseUnmarshal.Store`).
Sorting its keys (`SortedStringKeys`) becomes `Strings.SortedElements`.
`Strings.SortedUnique` shows that this order is the only strictly
ascending listing of the keys, so it agrees with any correct sort.

Where the code does something other than its own comments suggest, the
model follows the code:

- Lines 29-30 declare three specificity prefixes ("3", "6", "9") whose
  comment says they let the case clauses be sorted, and the comment at
  line 209 says the switch is built from the most to the least specific
  clause. Every key, however, uses the least
  specific prefix, "9". The order among handled clauses therefore comes
  from the rest of the key: the codec name, then the response name. Within
  one codec an exact code still precedes its class, and both precede
  "default" (`ResponseUnmarshal.ExactBeforeClass`,
  `ResponseUnmarshal.DigitLedBeforeDefault`).
- The `interface{}` type check sits inside the content-type loop. A
  response without content therefore still gets its no-content clause,
  even when its type is `interface{}`.
- Among unhandled clauses, a status class such as `2XX` sorts before an
  exact code such as `200`. This is the reverse of the handled order. It
  is harmless, because every unhandled action is a no-op
  (`ResponseUnmarshal.UnhandledClassBeforeExact`).
- Two definitions of one response whose content types belong to the same
  family write the same handled key, and only the later clause remains
  (`Scenarios.TwoJsonMediaTypesLastWriteWins`).

## Model

| member | source | states |
|---|---|---|
| ContentTypes.Classify | pkg/codegen/template_helpers.go:34-36 | a media type is in a family exactly when its list contains it; nothing else is recognised (matching is exact and case-sensitive) |
| ContentTypes.MediaTypesDisjoint | pkg/codegen/template_helpers.go:34-36 | no media type belongs to two families, so the order of the switch arms at lines 153-196 does not matter |
| ContentTypes.MediaTypeMentionsCodec | pkg/codegen/template_helpers.go:228-230 | a header equal to a listed media type contains its family's name, so it passes the generated `strings.Contains` test |
| StatusConditions.StatusClassesAreClasses | pkg/codegen/template_helpers.go:252 | the five literal cases are exactly the strings of a digit 1-5 followed by "XX" |
| StatusConditions.Condition | pkg/codegen/template_helpers.go:248-257 | "default" gives `true`; a status class compares `var / 100` with its leading digit; any other name compares `var ==` the name |
| StatusConditions.LowerCaseClassIsLiteral | pkg/codegen/template_helpers.go:252-256 | a lower-case class such as "2xx" is not a class: it is compared as a literal |
| StatusConditions.ConditionInjective | pkg/codegen/template_helpers.go:248-257 | different response names give different conditions |
| Operations.ResponseTypeDefinitions | pkg/codegen/template_helpers.go:239-245 | fails exactly when the type definitions cannot be computed, with TypeDefinitionsFailed carrying that error's message; otherwise returns them unchanged |
| ResponseUnmarshal.HandledKey | pkg/codegen/template_helpers.go:228 | the key `"9." + codec name + "." + response name`, ending in the response name |
| ResponseUnmarshal.UnhandledKey | pkg/codegen/template_helpers.go:134-135 | the key `"9case " + status condition + ":"` (built the same way at lines 198-199) |
| ResponseUnmarshal.ContentTypeTest | pkg/codegen/template_helpers.go:230 | the text `strings.Contains(rsp.Header.Get("Content-Type"), "<name>")`, which contains the name |
| ResponseUnmarshal.NoContentClause | pkg/codegen/template_helpers.go:132-135 | an unhandled no-op clause under the response's unhandled key, guarded by its status condition |
| ResponseUnmarshal.UnsupportedClause | pkg/codegen/template_helpers.go:196-199 | an unhandled note for the content type, guarded by the status condition, under the same key as the no-content clause |
| ResponseUnmarshal.DeclaredContent | pkg/codegen/template_helpers.go:120-129 | the content types of the response when it is declared with a non-nil value; None otherwise, where the source skips |
| ResponseUnmarshal.ClauseForContentType | pkg/codegen/template_helpers.go:142-200 | at most one clause: none for `interface{}`; a note for an unrecognised type; for a recognised one, the decode exactly when it is the definition's own content type |
| ResponseUnmarshal.ClausesForContentTypes | pkg/codegen/template_helpers.go:140-201 | no clauses for `interface{}`; every clause is the definition's own decode or an "unsupported" note for an unrecognised type; both are present when due; at most one decode clause per definition |
| ResponseUnmarshal.BuildUnmarshalCase | pkg/codegen/template_helpers.go:227-232 | a handled clause under the key of its codec and response name, whose condition is the test that the Content-Type header contains the codec's name, `&&`, the status condition of the response name, and whose action decodes into the definition's field |
| ResponseUnmarshal.ClausesForDefinition | pkg/codegen/template_helpers.go:118-202 | a missing or nil response writes nothing; an empty content map writes the no-content clause; otherwise no clauses for `interface{}`, every clause is the own decode or a note for a declared unrecognised type, both are present when due, and at most one decode is written (the order of the notes is stated by DefinitionNotesAscending) |
| ResponseUnmarshal.ContentTypeClausesAscending | pkg/codegen/template_helpers.go:140-141 | over sorted content types, the "unsupported" notes are written in ascending content-type order |
| ResponseUnmarshal.DefinitionNotesAscending | pkg/codegen/template_helpers.go:140-201 | one definition writes its "unsupported" notes in ascending content-type order, as SortedContentKeys lists them |
| ResponseUnmarshal.GreatestNoteSurvives | pkg/codegen/template_helpers.go:196-199 | of one definition's notes, all under the response's single unhandled key, the map keeps the note for the greatest unrecognised content type |
| ResponseUnmarshal.DecodeClauseOrigin | pkg/codegen/template_helpers.go:140-192 | a decode clause of one definition is its own decode, for a declared, recognised content type, of a definition that is not `interface{}` |
| ResponseUnmarshal.Clauses | pkg/codegen/template_helpers.go:118-202 | a clause is written exactly when some type definition writes it |
| ResponseUnmarshal.ClausesEmpty | pkg/codegen/template_helpers.go:110-113 | no clause is written exactly when every definition writes none |
| ResponseUnmarshal.Store | pkg/codegen/template_helpers.go:135 | the map of one group after the writes (lines 135, 164, 178, 192, 199): every entry is a write of that group |
| ResponseUnmarshal.StoreKeys | pkg/codegen/template_helpers.go:135 | each map holds only clauses of its own group, under their own keys, and holds every key written to it |
| ResponseUnmarshal.StoreLastWriteWins | pkg/codegen/template_helpers.go:164 | a write that no later write under the same key replaces is what the map holds |
| ResponseUnmarshal.StoreHoldsSurvivor | pkg/codegen/template_helpers.go:199 | whatever the map holds is a write that no later write replaced |
| ResponseUnmarshal.Cases | pkg/codegen/template_helpers.go:213-220 | a map's clauses in strictly ascending key order, each one the map's entry under its own key |
| ResponseUnmarshal.CasesComplete | pkg/codegen/template_helpers.go:213-220 | every entry of the map appears in the listing |
| ResponseUnmarshal.Assemble | pkg/codegen/template_helpers.go:204-221 | the emitted switch holds only clauses that were written |
| ResponseUnmarshal.AssembleEmpty | pkg/codegen/template_helpers.go:204-207 | no switch is emitted exactly when nothing was written |
| ResponseUnmarshal.AssembleOrder | pkg/codegen/template_helpers.go:208-220 | handled cases precede unhandled ones, and each group is in ascending key order |
| ResponseUnmarshal.ConcatOrdered | pkg/codegen/template_helpers.go:212-220 | two sorted groups emitted one after the other give a handled-first, group-ascending switch |
| ResponseUnmarshal.AssembleSurvivors | pkg/codegen/template_helpers.go:204-221 | the switch lists exactly the writes that no later write replaced |
| ResponseUnmarshal.GenResponseUnmarshal | pkg/codegen/template_helpers.go:100-224 | fails exactly when the type definitions fail, with TypeDefinitionsFailed carrying their error (the panic at 106-107); no switch exactly when no definition writes a clause; otherwise the switch is handled-first, ascending within groups, and lists exactly the surviving writes |
| ResponseUnmarshal.HandledKeyInjective | pkg/codegen/template_helpers.go:228 | two decode clauses share a key exactly when codec and response name coincide |
| ResponseUnmarshal.UnhandledKeyInjective | pkg/codegen/template_helpers.go:133-135 | two unhandled clauses share a key exactly when their response names coincide |
| ResponseUnmarshal.ExactBeforeClass | pkg/codegen/template_helpers.go:228 | within one codec, an exact code's key sorts before its class's key |
| ResponseUnmarshal.DigitLedBeforeDefault | pkg/codegen/template_helpers.go:228 | within one codec, a digit-led response name sorts before "default" |
| ResponseUnmarshal.UnhandledDefaultLast | pkg/codegen/template_helpers.go:197-199 | among unhandled clauses, "default" (`case true:`) sorts after every other response name |
| ResponseUnmarshal.UnhandledClassBeforeExact | pkg/codegen/template_helpers.go:197-199 | among unhandled clauses, a class sorts before an exact code |
| ResponseUnmarshal.EarlierKeyEarlierCase | pkg/codegen/template_helpers.go:212-220 | in one group, a smaller key comes earlier in the switch |
| ResponseUnmarshal.ExactBeforeClassInDispatch | pkg/codegen/template_helpers.go:208-228 | in the generated switch, an exact code's decode case precedes its class's decode case for the same codec |
| ResponseUnmarshal.DefaultLastInDispatch | pkg/codegen/template_helpers.go:208-228 | in the generated switch, a digit-led decode case precedes the "default" decode case for the same codec |
| ResponseUnmarshal.HandledCaseOrigin | pkg/codegen/template_helpers.go:140-201 | every decode case comes from a definition that is not `interface{}`, whose response declares its recognised content type |
| ResponseUnmarshal.WrittenKeyHasCase | pkg/codegen/template_helpers.go:204-216 | every handled key that was written has a case in the switch |
| ResponseUnmarshal.DefinitionHasCase | pkg/codegen/template_helpers.go:118-216 | every non-`interface{}` definition whose response declares its own recognised content type gets a decode case under its key |
| PrimaryResponse.DirectiveMembers | pkg/codegen/template_helpers.go:282-286 | an object's members, no members for JSON null, and NotAnObject for any other value |
| PrimaryResponse.RequiredString | pkg/codegen/template_helpers.go:288-305 | the string exactly when the key is present with a string value; MissingKey when absent; NotAString with the value otherwise |
| PrimaryResponse.StringElements | pkg/codegen/template_helpers.go:316-327 | succeeds exactly when every element is a string, giving back those strings in order; otherwise reports the first non-string element and its index |
| PrimaryResponse.ParsePrimaryResponseInfo | pkg/codegen/template_helpers.go:276-330 | None exactly when the extension is absent or not raw JSON; success exactly on a well-formed directive, and then the result is what the directive says; each malformed shape gives its error, checked in the source's order: undecodable JSON, a non-object, a missing or non-string status-code, a missing or non-string content-type, a non-array metadata-properties, and the first non-string element with its index |
| PrimaryResponse.ParseEncodeRoundTrip | pkg/codegen/template_helpers.go:276-330 | parsing a written directive returns what was written, metadata order included |
| PrimaryResponse.MatchesInfo | pkg/codegen/template_helpers.go:341 | a definition matches exactly when both its response name and its content type are the directive's |
| PrimaryResponse.FirstMatch | pkg/codegen/template_helpers.go:340-344 | the index of the first definition matching both status code and content type, or None when none matches |
| PrimaryResponse.PrimaryResponseTypeDefinition | pkg/codegen/template_helpers.go:335-346 | parse errors propagate; no directive gives None; otherwise success exactly when some definition matches, giving the first matching one, and NoPrimaryMatch exactly when none matches |
| PrimaryResponse.NonMetadata | pkg/codegen/template_helpers.go:363-364 | a property is kept exactly when its JSON name is not listed as metadata |
| PrimaryResponse.ScanSingle | pkg/codegen/template_helpers.go:360-371 | the loop with the candidate held by value: whatever it returns is the candidate passed in or a non-metadata property of the schema |
| PrimaryResponse.ScanSingleCorrect | pkg/codegen/template_helpers.go:360-371 | the early-exit loop finds a property exactly when one non-metadata property exists |
| PrimaryResponse.SingleNonMetadataProperty | pkg/codegen/template_helpers.go:357-371 | as the doc comment at 357-359 describes: the property when exactly one property is not metadata, None when there are none or several |
| PrimaryResponse.ScanSharedLoopVar | pkg/codegen/template_helpers.go:360-371 | the loop as written, with one loop variable shared by all iterations: a result is a schema property or the loop variable's starting value |
| PrimaryResponse.ScanSharedLoopVarResult | pkg/codegen/template_helpers.go:360-371 | the loop as written returns the LAST property iterated when exactly one property is not metadata, and nil otherwise |
| PrimaryResponse.SingleNonMetadataPropertyAsWritten | pkg/codegen/template_helpers.go:360-371 | getSingleNonMetadataProperty as written: with exactly one non-metadata property, the schema's last property; otherwise None |
| PrimaryResponse.AsWrittenAgreesWhenCandidateIsLast | pkg/codegen/template_helpers.go:360-371 | the code as written and the intended result agree exactly when there is no single candidate or the candidate is the last property |
| PrimaryResponse.SharedLoopVarReturnsLastProperty | pkg/codegen/template_helpers.go:367 | properties [ok, tests] with "tests" as metadata: the code as written returns "tests", the intended result is "ok" |
| PrimaryResponse.IsFlatTypeDefinition | pkg/codegen/template_helpers.go:375-377 | a type is flat exactly when its schema has no property |
| PrimaryResponse.AsReducedTypeDefinition | pkg/codegen/template_helpers.go:382-404 | flattens to the single non-metadata property, named by its JSON name, exactly when one exists; otherwise keeps the names, and the kept property names are exactly those of the non-metadata properties |
| PrimaryResponse.FlatReducesToEmptyPurge | pkg/codegen/template_helpers.go:375-404 | a flat type (no properties) is not flattened: it keeps its names and no property |
| PrimaryResponse.DefaultReturnTypeName | pkg/codegen/template_helpers.go:418 | `"*"` followed by the capitalised response type name, as line 418 builds it; capitalising again changes nothing |
| PrimaryResponse.ReturnTypeName | pkg/codegen/template_helpers.go:417-431 | fails exactly when resolving the directive fails, and with the same error (the panic raised inside getPrimaryResponseTypeDefinition); the single non-metadata property's Go type when there is one; otherwise the envelope pointer type |
| TemplateHelpers.GenResponseTypeName | pkg/codegen/template_helpers.go:235-237 | the operation id with its first letter capitalised, followed by "Response"; capitalising it again changes nothing |
| TemplateHelpers.ParamList | pkg/codegen/template_helpers.go:45-55 | the joined list equals the reference ", " in front of every part |
| TemplateHelpers.JoinPrefixEach | pkg/codegen/template_helpers.go:54 | ", " followed by the parts joined with ", " puts ", " in front of every part |
| TemplateHelpers.GenParamArgs | pkg/codegen/template_helpers.go:45-55 | ", name type" for every parameter in order; empty exactly when there are no parameters |
| TemplateHelpers.GenParamTypes | pkg/codegen/template_helpers.go:61-70 | ", type" for every parameter in order; empty exactly when there are no parameters |
| TemplateHelpers.GenParamNames | pkg/codegen/template_helpers.go:75-84 | ", name" for every parameter in order; empty exactly when there are no parameters |
| TemplateHelpers.StripNewLines | pkg/codegen/template_helpers.go:264-267 | no newline remains; every other character keeps its count; a string without newlines is unchanged |
| TemplateHelpers.StripNewLinesConcat | pkg/codegen/template_helpers.go:264-267 | stripping distributes over concatenation |
| TemplateHelpers.ParseStringSliceRoundTrip | pkg/codegen/template_helpers.go:260-262 | the quoted elements joined by commas inside `[]string{` and `}` read back as exactly the list, provided no element holds a '"' |
| TemplateHelpers.StringSliceLiteralInjective | pkg/codegen/template_helpers.go:260-262 | literals of lists without '"', '\\' or newline differ whenever the lists do |
| TemplateHelpers.ToStringArray | pkg/codegen/template_helpers.go:260-262 | as written: reads back as the given list when it is non-empty, and as [""] when it is empty (elements without '"') |
| TemplateHelpers.ToStringArrayNonEmpty | pkg/codegen/template_helpers.go:260-262 | for a non-empty list, the output is the quoted elements joined by commas inside `[]string{` and `}` |
| TemplateHelpers.ToStringArrayEmptyHasOneElement | pkg/codegen/template_helpers.go:260-262 | for the empty list, the output is `[]string{""}`, which reads back as the one-element list [""], not as an empty list |
| TemplateHelpers.ToStringArrayCorrected | pkg/codegen/template_helpers.go:260-262 | the quoted elements joined by commas, `[]string{}` for the empty list; reads back as exactly the given list when no element holds a '"' |
| Strings.SortedElements | pkg/codegen/template_helpers.go:140 | the set's elements, each once, in strictly ascending order |
| Strings.SortedUnique | pkg/codegen/template_helpers.go:213 | two strictly ascending listings of the same elements are equal |
| Scenarios.TestDirectiveParses | pkg/codegen/template_helpers_test.go:23-27 | the directive of GET /test/{name} parses to status "200", content type "application/xml" and metadata ["ok"] |
| Scenarios.NoDirectiveKeepsEnvelope | pkg/codegen/template_helpers_test.go:29-31 | without the directive there is no primary definition, and the envelope type is returned |
| Scenarios.TestPrimaryDefinition | pkg/codegen/template_helpers_test.go:48-54 | the primary definition of GET /test/{name} is the XML 200 one, with properties "ok" and "tests" |
| Scenarios.TestOperationFlattens | pkg/codegen/template_helpers.go:417-431 | with "ok" as metadata, GET /test/{name} returns the type of "tests" |
| Scenarios.TestOperationWithoutMetadataKeepsEnvelope | pkg/codegen/template_helpers.go:425-429 | with no metadata, two properties remain and the envelope type is kept |
| Scenarios.MissingResponseFails | pkg/codegen/template_helpers.go:340-345 | a directive naming an undeclared response is an error |
| Scenarios.TestOperationDispatch | pkg/codegen/template_helpers.go:100-224 | for the type definitions Xml200 and an assumed one for the content-less default response, the switch is the XML decode for 200, then the no-op for default |
| Scenarios.TwoJsonMediaTypesLastWriteWins | pkg/codegen/template_helpers.go:164 | two JSON media types of one response share a key; only the later definition's decode case remains |

## Left out

- Emitted text: the model keeps each clause's group, key, condition and action (codec, type declaration, target field, or the note). It does not keep the byte-exact Go text of the action bodies, or the buffer with its newlines.
- The stderr message for a nil response value (line 127) is I/O. Only the skip is modelled.
- A nil `*ResponseRef` value in the responses map is not modelled. The model's response reference always exists, with an optional value.
- `genResponsePayload` (lines 87-97) only formats text around `genResponseTypeName`, which is modelled.
- `TemplateFunctions` (lines 435-464) is a name table for the template engine. The helpers it names from other files are not part of this model.
- `stringSliceContains` (lines 348-355) is modelled as Dafny's sequence membership.
- `isFlatTypeDefinitionAfterReduction` (lines 411-413) depends on the schema that `GenerateGoSchema` regenerates. That generator is not part of this model.
- AsReducedTypeDefinition: in the purge branch the source deletes the metadata names from the OpenAPI schema's property map and regenerates the Go schema with `GenerateGoSchema`. The model records only the kept property names, taken from the Go schema's property list. Not modelled: the regenerated schema; the deletion from a map shared with the original schema (line 395); and the panic when `GenerateGoSchema` fails (lines 398-401).
- AsReducedTypeDefinition: flattens to the intended single non-metadata property. The code as written flattens to the schema's last property (see the Findings row); the two differ when the candidate is not the last property.
- Calls into other files whose results the model takes as given, as fields of its records: `GetResponseTypeDefinitions` (lines 105, 240; the list or an error message), `Schema.TypeDecl()` (lines 160, 175, 189; `Schema.typeDecl`), `Property.GoTypeDef()` (line 430; `Property.goTypeDef`), `ParameterDefinition.GoVariableName()` and `TypeDef()` (lines 51, 52, 67, 81; fields of `ParameterDefinition`). `SortedContentKeys` and `SortedStringKeys` (lines 140, 213, 217) are modelled as `Strings.SortedElements`, `StringInArray` (lines 153, 168, 182) as sequence membership, and `UppercaseFirstCharacter` (lines 236, 418) is reimplemented as `TemplateHelpers.UppercaseFirst`.
- UppercaseFirstCharacter is modelled on ASCII letters only. Go's Unicode upper-casing is not modelled.
- ReturnTypeName resolves the directive once. The source parses it a second time at line 424; the result is the same, because the parse is deterministic.
- SingleNonMetadataProperty models the intended result of the loop, not the code as written. At line 367, `ret = &prop` takes the address of the loop variable. Before Go 1.22 that variable is shared by all iterations, and every later iteration overwrites it, metadata properties included. So when exactly one property is not metadata, the code returns the schema's last property (`PrimaryResponse.SingleNonMetadataPropertyAsWritten`, Findings row).
- ReturnTypeName: returns the Go type of the intended single non-metadata property. The code as written returns the type of the schema's last property, which differs when the candidate is not last.
- ToStringArray (and StringSliceLiteral, ToStringArrayCorrected): like the source, the model does not escape elements. An element holding '"', '\\' or a newline gives text that is not the Go literal of the list, and different lists can then give the same text; the read-back properties are stated only for elements without '"'.
- JSON numbers are kept as literals. Floating-point decoding is not modelled, because the directive only needs strings and arrays.
- Panics are modelled as `Failure` values. Their message texts are not modelled; each failure carries the offending key, index and value instead.

## Findings

| source | as written | input that shows it | evidently intended | confidence | as-written member | corrected member |
|---|---|---|---|---|---|---|
| pkg/codegen/template_helpers.go:260-262 | wraps the `","`-joined elements in `[]string{"` and `"}` unconditionally | the empty list gives `[]string{""}`, a one-element slice holding "" | `[]string{}` for the empty list, so that the text reads back as exactly the given elements (for elements without '"') | medium, not executed | TemplateHelpers.ToStringArrayEmptyHasOneElement | TemplateHelpers.ToStringArrayCorrected |
| pkg/codegen/template_helpers.go:360-371 | `ret = &prop` points at the loop variable, which later iterations overwrite (Go before 1.22), so the last property iterated is returned | properties [ok, tests] with metadata ["tests"] return "tests" | the single non-metadata property, "ok", as the doc comment at 357-359 says | medium, not executed; depends on the Go version the repository builds with | PrimaryResponse.SharedLoopVarReturnsLastProperty | PrimaryResponse.SingleNonMetadataProperty |
