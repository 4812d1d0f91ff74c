/** The three families of media types the generated client can decode. */
module ContentTypes {
  import opened Wrappers

  datatype Codec = JSON | YAML | XML

  const ContentTypesJson: seq<string> := ["application/json", "text/x-json"]
  const ContentTypesYaml: seq<string> := ["application/yaml", "application/x-yaml", "text/yaml", "text/x-yaml"]
  const ContentTypesXml: seq<string> := ["application/xml", "text/xml"]

  function MediaTypes(codec: Codec): seq<string>
  {
    match codec
    case JSON => ContentTypesJson
    case YAML => ContentTypesYaml
    case XML => ContentTypesXml
  }

  /** The codec's name as it appears in case keys and header tests. */
  function CodecName(codec: Codec): string
  {
    match codec
    case JSON => "json"
    case YAML => "yaml"
    case XML => "xml"
  }

  /**
   * The content-type switch of genResponseUnmarshal: exact, case-sensitive
   * membership, checked in the order JSON, YAML, XML; anything else is
   * unrecognised.
   */
  function Classify(contentType: string): (r: Option<Codec>)
    ensures forall codec :: r == Some(codec) <==> contentType in MediaTypes(codec)
    ensures r == None <==> forall codec :: contentType !in MediaTypes(codec)
  {
    if contentType in ContentTypesJson then Some(JSON)
    else if contentType in ContentTypesYaml then Some(YAML)
    else if contentType in ContentTypesXml then Some(XML)
    else None
  }

  /** No media type belongs to two families. */
  lemma MediaTypesDisjoint(c1: Codec, c2: Codec, contentType: string)
    requires contentType in MediaTypes(c1) && contentType in MediaTypes(c2)
    ensures c1 == c2
  {
  }

  ghost predicate IsSubstring(needle: string, haystack: string)
  {
    exists i | 0 <= i <= |haystack| - |needle| :: haystack[i..][..|needle|] == needle
  }

  /**
   * A header equal to a declared media type passes the generated
   * `strings.Contains(<header>, "<codec>")` test for its own family.
   */
  lemma MediaTypeMentionsCodec(codec: Codec, contentType: string)
    requires contentType in MediaTypes(codec)
    ensures IsSubstring(CodecName(codec), contentType)
  {
    var at :=
      match contentType
      case "application/json" => 12
      case "text/x-json" => 7
      case "application/yaml" => 12
      case "application/x-yaml" => 14
      case "text/yaml" => 5
      case "text/x-yaml" => 7
      case "application/xml" => 12
      case _ => 5;
    assert contentType[at..][..|CodecName(codec)|] == CodecName(codec);
  }
}
