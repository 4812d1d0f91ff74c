/**
 * genResponseUnmarshal: the runtime `switch` that decodes a response body.
 * Every (type definition, content type) pair writes at most one case clause
 * into one of two maps, "handled" (a decode) and "unhandled" (a no-op); the
 * switch lists the handled map in ascending key order, then the unhandled one.
 */
module ResponseUnmarshal {
  import opened Wrappers
  import opened Strings
  import opened Operations
  import opened ContentTypes
  import opened StatusConditions

  /**
   * The only key prefix in use. The source also declares "3" and "6" for more
   * specific clauses but never uses them.
   */
  const PrefixLeastSpecific: string := "9"
  const StatusCodeVar: string := "rsp.StatusCode"
  const HeaderContentType: string := "Content-Type"
  /** The type name given to anyOf/oneOf schemas, which cannot be decoded. */
  const InterfaceTypeName: string := "interface{}"

  datatype Group = Handled | Unhandled

  /** What a case does. Decode bodies are represented by their codec and Go types. */
  datatype Action =
    | Decode(codec: Codec, typeDecl: string, field: string)
    | NoContentType
    | UnsupportedContentType(contentType: string)

  /** A case clause together with the map it is stored in and its key there. */
  datatype Clause = Clause(group: Group, key: string, condition: string, action: Action)

  /** The generated text: empty, or a switch over the listed cases. */
  datatype Dispatch = NoSwitch | Switch(cases: seq<Clause>)

  /** The handled-map key buildUnmarshalCase writes under: "9.<codec>.<response name>". */
  function HandledKey(codec: Codec, responseName: string): (r: string)
    ensures r == "9." + CodecName(codec) + "." + responseName
    ensures r[|r| - |responseName|..] == responseName
  {
    PrefixLeastSpecific + "." + CodecName(codec) + "." + responseName
  }

  /** The unhandled-map key genResponseUnmarshal writes under: "9case <status condition>:". */
  function UnhandledKey(responseName: string): (r: string)
    ensures r == "9case " + Condition(StatusCodeVar, responseName) + ":"
  {
    PrefixLeastSpecific + "case " + Condition(StatusCodeVar, responseName) + ":"
  }

  /** The generated test that the response's Content-Type header mentions `name`. */
  function ContentTypeTest(name: string): (r: string)
    ensures r == "strings.Contains(rsp.Header.Get(\"Content-Type\"), \"" + name + "\")"
    ensures IsSubstring(name, r)
  {
    var header := "strings.Contains(rsp.Header.Get(\"" + HeaderContentType + "\"), \"";
    var test := header + name + "\")";
    assert test[|header|..][..|name|] == name;
    test
  }

  /** A substring of a text is a substring of any extension of it. */
  lemma SubstringOfPrefix(needle: string, text: string, more: string)
    requires IsSubstring(needle, text)
    ensures IsSubstring(needle, text + more)
  {
    var i :| 0 <= i <= |text| - |needle| && text[i..][..|needle|] == needle;
    assert (text + more)[i..][..|needle|] == text[i..][..|needle|];
  }

  /** buildUnmarshalCase: a decode clause for one type definition and codec. */
  function BuildUnmarshalCase(td: ResponseTypeDefinition, codec: Codec): (r: Clause)
    ensures r.group == Handled && r.key == HandledKey(codec, td.responseName)
    ensures r.condition == ContentTypeTest(CodecName(codec)) + " && " + Condition(StatusCodeVar, td.responseName)
    ensures IsSubstring(CodecName(codec), r.condition)
    ensures var status := Condition(StatusCodeVar, td.responseName);
      |r.condition| > |status| && r.condition[|r.condition| - |status|..] == status
    ensures r.action == Decode(codec, td.definition.schema.typeDecl, td.definition.typeName)
  {
    var test := ContentTypeTest(CodecName(codec));
    var condition := test + " && " + Condition(StatusCodeVar, td.responseName);
    SubstringOfPrefix(CodecName(codec), test, " && " + Condition(StatusCodeVar, td.responseName));
    assert test + (" && " + Condition(StatusCodeVar, td.responseName)) == condition;
    Clause(
      Handled,
      HandledKey(codec, td.responseName),
      condition,
      Decode(codec, td.definition.schema.typeDecl, td.definition.typeName))
  }

  /** The unhandled clause for a response without content: a no-op under the response's unhandled key. */
  function NoContentClause(responseName: string): (r: Clause)
    ensures r.group == Unhandled && r.key == UnhandledKey(responseName)
    ensures r.condition == Condition(StatusCodeVar, responseName) && r.action == NoContentType
  {
    Clause(Unhandled, UnhandledKey(responseName), Condition(StatusCodeVar, responseName), NoContentType)
  }

  /** The unhandled clause noting an unrecognised content type, under the response's unhandled key. */
  function UnsupportedClause(responseName: string, contentType: string): (r: Clause)
    ensures r.group == Unhandled && r.key == UnhandledKey(responseName) && r.key == NoContentClause(responseName).key
    ensures r.condition == Condition(StatusCodeVar, responseName) && r.action == UnsupportedContentType(contentType)
  {
    Clause(Unhandled, UnhandledKey(responseName), Condition(StatusCodeVar, responseName), UnsupportedContentType(contentType))
  }

  /**
   * The content types of the named response, or None when the operation has
   * no such response or its value is nil (both skipped by the source).
   */
  function DeclaredContent(responses: map<string, ResponseRef>, responseName: string): (r: Option<set<string>>)
    ensures r.Some? <==> responseName in responses && responses[responseName].value.Some?
    ensures r.Some? ==> r.value == responses[responseName].value.value.content
  {
    if responseName in responses && responses[responseName].value.Some?
    then Some(responses[responseName].value.value.content)
    else None
  }

  /** One iteration of the content-type loop. */
  function ClauseForContentType(td: ResponseTypeDefinition, contentType: string): (r: seq<Clause>)
    ensures |r| <= 1
    ensures td.definition.typeName == InterfaceTypeName ==> r == []
    ensures td.definition.typeName != InterfaceTypeName ==>
      && (Classify(contentType).None? ==> r == [UnsupportedClause(td.responseName, contentType)])
      && (Classify(contentType).Some? ==>
            && (r != [] <==> td.contentTypeName == contentType)
            && (r != [] ==> r == [BuildUnmarshalCase(td, Classify(contentType).value)]))
  {
    if td.definition.typeName == InterfaceTypeName then []
    else
      match Classify(contentType)
      case Some(codec) => if td.contentTypeName == contentType then [BuildUnmarshalCase(td, codec)] else []
      case None => [UnsupportedClause(td.responseName, contentType)]
  }

  ghost predicate Distinct(s: seq<string>)
  {
    forall i, j | 0 <= i < j < |s| :: s[i] != s[j]
  }

  /** A handled clause decodes the definition's own content type with its family's codec. */
  ghost predicate IsOwnDecode(td: ResponseTypeDefinition, c: Clause)
  {
    && c.group == Handled
    && Classify(td.contentTypeName).Some?
    && c == BuildUnmarshalCase(td, Classify(td.contentTypeName).value)
  }

  /** An unhandled clause names one of the unrecognised content types. */
  ghost predicate IsUnsupportedNote(td: ResponseTypeDefinition, c: Clause)
  {
    && c.group == Unhandled
    && c.action.UnsupportedContentType?
    && Classify(c.action.contentType).None?
    && c == UnsupportedClause(td.responseName, c.action.contentType)
  }

  function ClausesForContentTypes(td: ResponseTypeDefinition, contentTypes: seq<string>): (r: seq<Clause>)
    ensures td.definition.typeName == InterfaceTypeName ==> r == []
    ensures forall c | c in r ::
      || (IsOwnDecode(td, c) && td.contentTypeName in contentTypes)
      || (IsUnsupportedNote(td, c) && c.action.contentType in contentTypes)
    ensures td.definition.typeName != InterfaceTypeName ==>
      && (td.contentTypeName in contentTypes && Classify(td.contentTypeName).Some? ==>
            BuildUnmarshalCase(td, Classify(td.contentTypeName).value) in r)
      && (forall ct | ct in contentTypes && Classify(ct).None? :: UnsupportedClause(td.responseName, ct) in r)
    ensures Distinct(contentTypes) ==>
      forall i, j | 0 <= i < |r| && 0 <= j < |r| && r[i].group == Handled && r[j].group == Handled :: i == j
  {
    if |contentTypes| == 0 then []
    else
      var rest := ClausesForContentTypes(td, contentTypes[1..]);
      assert Distinct(contentTypes) ==> Distinct(contentTypes[1..]) && contentTypes[0] !in contentTypes[1..];
      ClauseForContentType(td, contentTypes[0]) + rest
  }

  /**
   * The "unsupported" notes come in ascending order of their content types,
   * so the last one written under a response's key is the greatest.
   */
  ghost predicate NotesAscending(r: seq<Clause>)
  {
    forall i, j | 0 <= i < j < |r| && r[i].action.UnsupportedContentType? && r[j].action.UnsupportedContentType? ::
      Less(r[i].action.contentType, r[j].action.contentType)
  }

  lemma {:induction false} ContentTypeClausesAscending(td: ResponseTypeDefinition, contentTypes: seq<string>)
    requires StrictlySorted(contentTypes)
    ensures NotesAscending(ClausesForContentTypes(td, contentTypes))
  {
    if |contentTypes| > 0 {
      var tail := contentTypes[1..];
      ContentTypeClausesAscending(td, tail);
      var head := ClauseForContentType(td, contentTypes[0]);
      var rest := ClausesForContentTypes(td, tail);
      var r := ClausesForContentTypes(td, contentTypes);
      assert r == head + rest;
      HeadNote(td, contentTypes[0]);
      LaterNotesGreater(td, contentTypes);
      NotesAscendingConcat(head, rest, contentTypes[0]);
    }
  }

  /**
   * At most one clause, noting only `first`, followed by ascending notes all
   * greater than `first`, gives ascending notes.
   */
  lemma NotesAscendingConcat(head: seq<Clause>, rest: seq<Clause>, first: string)
    requires |head| <= 1
    requires forall c | c in head && c.action.UnsupportedContentType? :: c.action.contentType == first
    requires forall j | 0 <= j < |rest| && rest[j].action.UnsupportedContentType? :: Less(first, rest[j].action.contentType)
    requires NotesAscending(rest)
    ensures NotesAscending(head + rest)
  {
    var r := head + rest;
    forall i, j | 0 <= i < j < |r| && r[i].action.UnsupportedContentType? && r[j].action.UnsupportedContentType?
      ensures Less(r[i].action.contentType, r[j].action.contentType)
    {
      if i < |head| {
        assert r[i] in head && r[j] == rest[j - |head|];
      } else {
        assert r[i] == rest[i - |head|] && r[j] == rest[j - |head|];
      }
    }
  }

  /** One iteration writes at most one clause, and a note it writes is for that content type. */
  lemma HeadNote(td: ResponseTypeDefinition, contentType: string)
    ensures var head := ClauseForContentType(td, contentType);
      && |head| <= 1
      && forall c | c in head && c.action.UnsupportedContentType? :: c.action.contentType == contentType
  {
  }

  /** Over sorted content types, every note written after the first iteration is for a greater type. */
  lemma LaterNotesGreater(td: ResponseTypeDefinition, contentTypes: seq<string>)
    requires StrictlySorted(contentTypes) && |contentTypes| > 0
    ensures var rest := ClausesForContentTypes(td, contentTypes[1..]);
      forall j | 0 <= j < |rest| && rest[j].action.UnsupportedContentType? ::
        Less(contentTypes[0], rest[j].action.contentType)
  {
    var tail := contentTypes[1..];
    var rest := ClausesForContentTypes(td, tail);
    forall j | 0 <= j < |rest| && rest[j].action.UnsupportedContentType?
      ensures Less(contentTypes[0], rest[j].action.contentType)
    {
      assert rest[j] in rest;
      var m :| 0 <= m < |tail| && tail[m] == rest[j].action.contentType;
      assert contentTypes[m + 1] == tail[m];
    }
  }

  lemma SortedIsDistinct(s: seq<string>)
    requires StrictlySorted(s)
    ensures Distinct(s)
  {
    forall i, j | 0 <= i < j < |s|
      ensures s[i] != s[j]
    {
      LessIrreflexive(s[i]);
    }
  }

  /**
   * The clauses one type definition writes, in write order: nothing for a
   * missing or nil response, one "No content-type" clause for a response
   * without content, and otherwise one clause per sorted content type.
   */
  function ClausesForDefinition(td: ResponseTypeDefinition, responses: map<string, ResponseRef>): (r: seq<Clause>)
    ensures DeclaredContent(responses, td.responseName).None? ==> r == []
    ensures DeclaredContent(responses, td.responseName) == Some({}) ==> r == [NoContentClause(td.responseName)]
    ensures DeclaredContent(responses, td.responseName).Some? && DeclaredContent(responses, td.responseName) != Some({}) ==>
      var content := DeclaredContent(responses, td.responseName).value;
      && (td.definition.typeName == InterfaceTypeName ==> r == [])
      && (forall c | c in r ::
            || (IsOwnDecode(td, c) && td.contentTypeName in content)
            || (IsUnsupportedNote(td, c) && c.action.contentType in content))
      && (td.definition.typeName != InterfaceTypeName ==>
            && (td.contentTypeName in content && Classify(td.contentTypeName).Some? ==>
                  BuildUnmarshalCase(td, Classify(td.contentTypeName).value) in r)
            && (forall ct | ct in content && Classify(ct).None? :: UnsupportedClause(td.responseName, ct) in r))
      && (forall i, j | 0 <= i < |r| && 0 <= j < |r| && r[i].group == Handled && r[j].group == Handled :: i == j)
  {
    match DeclaredContent(responses, td.responseName)
    case None => []
    case Some(content) =>
      if |content| == 0 then [NoContentClause(td.responseName)]
      else
        var sorted := SortedElements(content);
        SortedIsDistinct(sorted);
        ClausesForContentTypes(td, sorted)
  }

  /** One definition's notes follow the sorted order of the response's content types. */
  lemma DefinitionNotesAscending(td: ResponseTypeDefinition, responses: map<string, ResponseRef>)
    ensures NotesAscending(ClausesForDefinition(td, responses))
  {
    match DeclaredContent(responses, td.responseName)
    case None =>
    case Some(content) =>
      if |content| > 0 {
        ContentTypeClausesAscending(td, SortedElements(content));
      }
  }

  /**
   * Of one definition's "unsupported" notes, all written under the
   * response's one unhandled key, the note for the greatest unrecognised
   * content type is the one the map keeps.
   */
  lemma GreatestNoteSurvives(td: ResponseTypeDefinition, responses: map<string, ResponseRef>, contentType: string)
    requires DeclaredContent(responses, td.responseName).Some?
    requires td.definition.typeName != InterfaceTypeName
    requires contentType in DeclaredContent(responses, td.responseName).value && Classify(contentType).None?
    requires forall other | other in DeclaredContent(responses, td.responseName).value && Classify(other).None? ::
      other == contentType || Less(other, contentType)
    ensures var stored := Store(ClausesForDefinition(td, responses), Unhandled);
      UnhandledKey(td.responseName) in stored && stored[UnhandledKey(td.responseName)] == UnsupportedClause(td.responseName, contentType)
  {
    var writes := ClausesForDefinition(td, responses);
    var note := UnsupportedClause(td.responseName, contentType);
    assert note in writes;
    var w :| 0 <= w < |writes| && writes[w] == note;
    DefinitionNotesAscending(td, responses);
    forall j | w < j < |writes|
      ensures writes[j].group != Unhandled
    {
      if writes[j].group == Unhandled {
        assert writes[j] in writes;
        var later := writes[j].action.contentType;
        assert Less(contentType, later);
        LessIrreflexive(contentType);
        LessAsymmetric(contentType, later);
        assert false;
      }
    }
    StoreLastWriteWins(writes, Unhandled, w);
  }

  /** The clauses of all type definitions, in the order the source writes them. */
  function Clauses(tds: seq<ResponseTypeDefinition>, responses: map<string, ResponseRef>): (r: seq<Clause>)
    ensures forall c :: c in r <==> exists i | 0 <= i < |tds| :: c in ClausesForDefinition(tds[i], responses)
  {
    if |tds| == 0 then []
    else
      var rest := Clauses(tds[1..], responses);
      assert forall i | 1 <= i < |tds| :: tds[i] == tds[1..][i - 1];
      ClausesForDefinition(tds[0], responses) + rest
  }

  lemma {:induction false} ClausesEmpty(tds: seq<ResponseTypeDefinition>, responses: map<string, ResponseRef>)
    ensures Clauses(tds, responses) == [] <==> forall i | 0 <= i < |tds| :: ClausesForDefinition(tds[i], responses) == []
  {
    if |tds| > 0 {
      var rest := tds[1..];
      assert Clauses(tds, responses) == ClausesForDefinition(tds[0], responses) + Clauses(rest, responses);
      ClausesEmpty(rest, responses);
      assert forall i | 1 <= i < |tds| :: tds[i] == rest[i - 1];
    }
  }

  /** No later write to the same map under the same key replaces write `w`. */
  ghost predicate IsLastWrite(writes: seq<Clause>, w: int)
    requires 0 <= w < |writes|
  {
    forall j | w < j < |writes| :: !(writes[j].group == writes[w].group && writes[j].key == writes[w].key)
  }

  lemma LastWriteInPrefix(writes: seq<Clause>, w: int)
    requires 0 <= w < |writes| - 1
    ensures IsLastWrite(writes, w) <==>
      && IsLastWrite(writes[..|writes| - 1], w)
      && !(writes[|writes| - 1].group == writes[w].group && writes[|writes| - 1].key == writes[w].key)
  {
    var prefix := writes[..|writes| - 1];
    assert forall j | w < j < |prefix| :: prefix[j] == writes[j];
  }

  /**
   * The map of one group after performing the writes in order. Map
   * assignment: a later clause under the same key silently replaces an
   * earlier one.
   */
  function Store(writes: seq<Clause>, g: Group): (r: map<string, Clause>)
    ensures forall k | k in r :: r[k] in writes && r[k].group == g
    decreases |writes|
  {
    if |writes| == 0 then map[]
    else
      var m := Store(writes[..|writes| - 1], g);
      var last := writes[|writes| - 1];
      if last.group == g then m[last.key := last] else m
  }

  /** A map holds the clauses of its own group under their own keys, and every key written to it. */
  lemma {:induction false} StoreKeys(writes: seq<Clause>, g: Group)
    ensures forall k | k in Store(writes, g) :: Store(writes, g)[k].group == g && Store(writes, g)[k].key == k
    ensures forall w | 0 <= w < |writes| && writes[w].group == g :: writes[w].key in Store(writes, g)
    decreases |writes|
  {
    if |writes| > 0 {
      var prefix := writes[..|writes| - 1];
      StoreKeys(prefix, g);
      assert forall w | 0 <= w < |prefix| :: writes[w] == prefix[w];
    }
  }

  /** Last write wins: a clause no later write replaces is what the map holds. */
  lemma {:induction false} StoreLastWriteWins(writes: seq<Clause>, g: Group, w: nat)
    requires w < |writes| && writes[w].group == g && IsLastWrite(writes, w)
    ensures writes[w].key in Store(writes, g) && Store(writes, g)[writes[w].key] == writes[w]
    decreases |writes|
  {
    var n := |writes| - 1;
    if w < n {
      var prefix := writes[..n];
      LastWriteInPrefix(writes, w);
      assert prefix[w] == writes[w];
      StoreLastWriteWins(prefix, g, w);
    }
  }

  /** Whatever the map holds is a write that no later write replaced. */
  lemma {:induction false} StoreHoldsSurvivor(writes: seq<Clause>, g: Group, k: string) returns (w: nat)
    requires k in Store(writes, g)
    ensures w < |writes| && IsLastWrite(writes, w) && writes[w] == Store(writes, g)[k]
    decreases |writes|
  {
    var n := |writes| - 1;
    var prefix := writes[..n];
    var last := writes[n];
    if last.group == g && last.key == k {
      w := n;
    } else {
      StoreKeys(prefix, g);
      w := StoreHoldsSurvivor(prefix, g, k);
      assert prefix[w] == writes[w];
      LastWriteInPrefix(writes, w);
    }
  }

  /** A map's clauses in ascending key order (SortedStringKeys, then lookup). */
  function Cases(m: map<string, Clause>): (r: seq<Clause>)
    requires forall k | k in m :: m[k].key == k
    ensures forall i | 0 <= i < |r| :: r[i].key in m && m[r[i].key] == r[i]
    ensures forall i, j | 0 <= i < j < |r| :: Less(r[i].key, r[j].key)
  {
    var keys := SortedElements(m.Keys);
    seq(|keys|, i requires 0 <= i < |keys| => m[keys[i]])
  }

  lemma CasesComplete(m: map<string, Clause>, k: string)
    requires forall k | k in m :: m[k].key == k
    requires k in m
    ensures m[k] in Cases(m)
  {
    var keys := SortedElements(m.Keys);
    var i :| 0 <= i < |keys| && keys[i] == k;
    assert Cases(m)[i] == m[k];
  }

  ghost predicate HandledFirst(cases: seq<Clause>)
  {
    forall i, j | 0 <= i < |cases| && 0 <= j < |cases| && cases[i].group == Handled && cases[j].group == Unhandled :: i < j
  }

  ghost predicate AscendingWithinGroups(cases: seq<Clause>)
  {
    forall i, j | 0 <= i < j < |cases| && cases[i].group == cases[j].group :: Less(cases[i].key, cases[j].key)
  }

  /** The cases are exactly the writes that no later write replaced. */
  ghost predicate ListsSurvivors(cases: seq<Clause>, writes: seq<Clause>)
  {
    && (forall i | 0 <= i < |cases| :: exists w | 0 <= w < |writes| :: IsLastWrite(writes, w) && writes[w] == cases[i])
    && (forall w | 0 <= w < |writes| && IsLastWrite(writes, w) :: writes[w] in cases)
  }

  /**
   * The end of genResponseUnmarshal: both maps empty gives "", otherwise the
   * handled then the unhandled cases, each group by key.
   */
  function Assemble(writes: seq<Clause>): (r: Dispatch)
    ensures r.Switch? ==> forall c | c in r.cases :: c in writes
  {
    var handled := Store(writes, Handled);
    var unhandled := Store(writes, Unhandled);
    StoreKeys(writes, Handled);
    StoreKeys(writes, Unhandled);
    if |handled| + |unhandled| == 0 then NoSwitch
    else Switch(Cases(handled) + Cases(unhandled))
  }

  lemma AssembleEmpty(writes: seq<Clause>)
    ensures Assemble(writes) == NoSwitch <==> |writes| == 0
  {
    StoreKeys(writes, Handled);
    StoreKeys(writes, Unhandled);
    if |writes| > 0 {
      var k := writes[0].key;
      assert k in Store(writes, Handled).Keys || k in Store(writes, Unhandled).Keys;
    }
  }

  lemma AssembleOrder(writes: seq<Clause>)
    requires Assemble(writes).Switch?
    ensures HandledFirst(Assemble(writes).cases)
    ensures AscendingWithinGroups(Assemble(writes).cases)
  {
    StoreKeys(writes, Handled);
    StoreKeys(writes, Unhandled);
    var h, u := Cases(Store(writes, Handled)), Cases(Store(writes, Unhandled));
    assert Assemble(writes).cases == h + u;
    ConcatOrdered(h, u);
  }

  /** Handled cases in key order followed by unhandled cases in key order. */
  lemma ConcatOrdered(h: seq<Clause>, u: seq<Clause>)
    requires forall i | 0 <= i < |h| :: h[i].group == Handled
    requires forall i | 0 <= i < |u| :: u[i].group == Unhandled
    requires forall i, j | 0 <= i < j < |h| :: Less(h[i].key, h[j].key)
    requires forall i, j | 0 <= i < j < |u| :: Less(u[i].key, u[j].key)
    ensures HandledFirst(h + u)
    ensures AscendingWithinGroups(h + u)
  {
    assert forall i | 0 <= i < |h| :: (h + u)[i] == h[i];
    assert forall i | |h| <= i < |h| + |u| :: (h + u)[i] == u[i - |h|];
  }

  lemma AssembleSurvivors(writes: seq<Clause>)
    requires Assemble(writes).Switch?
    ensures ListsSurvivors(Assemble(writes).cases, writes)
  {
    StoreKeys(writes, Handled);
    StoreKeys(writes, Unhandled);
    var handled, unhandled := Store(writes, Handled), Store(writes, Unhandled);
    var h, u := Cases(handled), Cases(unhandled);
    var cases := Assemble(writes).cases;
    assert cases == h + u;
    forall i | 0 <= i < |cases|
      ensures exists w | 0 <= w < |writes| :: IsLastWrite(writes, w) && writes[w] == cases[i]
    {
      var w;
      if i < |h| {
        assert cases[i] == h[i];
        w := StoreHoldsSurvivor(writes, Handled, h[i].key);
      } else {
        assert cases[i] == u[i - |h|];
        w := StoreHoldsSurvivor(writes, Unhandled, u[i - |h|].key);
      }
      assert IsLastWrite(writes, w) && writes[w] == cases[i];
    }
    forall w | 0 <= w < |writes| && IsLastWrite(writes, w)
      ensures writes[w] in cases
    {
      var g := writes[w].group;
      StoreLastWriteWins(writes, g, w);
      CasesComplete(Store(writes, g), writes[w].key);
    }
  }

  /**
   * genResponseUnmarshal. Fails only when the type definitions cannot be
   * computed; unsupported or missing content never produces an error.
   */
  function GenResponseUnmarshal(op: Operation): (r: Result<Dispatch, Error>)
    ensures r.Failure? <==> op.typeDefinitions.Failure?
    ensures r.Failure? ==> r.error == TypeDefinitionsFailed(op.typeDefinitions.error)
    ensures r.Success? ==>
      var tds := op.typeDefinitions.value;
      && (r.value == NoSwitch <==> forall i | 0 <= i < |tds| :: ClausesForDefinition(tds[i], op.responses) == [])
      && (r.value.Switch? ==>
            && HandledFirst(r.value.cases)
            && AscendingWithinGroups(r.value.cases)
            && ListsSurvivors(r.value.cases, Clauses(tds, op.responses)))
  {
    var tds :- ResponseTypeDefinitions(op);
    if |tds| == 0 then Success(NoSwitch)
    else
      var writes := Clauses(tds, op.responses);
      ClausesEmpty(tds, op.responses);
      AssembleEmpty(writes);
      var d := Assemble(writes);
      assert d.Switch? ==> HandledFirst(d.cases) && AscendingWithinGroups(d.cases) && ListsSurvivors(d.cases, writes) by {
        if d.Switch? {
          AssembleOrder(writes);
          AssembleSurvivors(writes);
        }
      }
      Success(d)
  }

  /** A literal three-digit status code such as "200". */
  predicate IsExactCode(responseName: string)
  {
    |responseName| == 3 && forall i | 0 <= i < 3 :: '0' <= responseName[i] <= '9'
  }

  /** Handled keys collide exactly when codec and response name coincide. */
  lemma HandledKeyInjective(c1: Codec, n1: string, c2: Codec, n2: string)
    ensures HandledKey(c1, n1) == HandledKey(c2, n2) <==> c1 == c2 && n1 == n2
  {
    if HandledKey(c1, n1) == HandledKey(c2, n2) {
      var k := HandledKey(c1, n1);
      assert k[2] == CodecName(c1)[0] && k[2] == CodecName(c2)[0];
      assert k[3] == CodecName(c1)[1] && k[3] == CodecName(c2)[1];
      assert c1 == c2;
      var p := PrefixLeastSpecific + "." + CodecName(c1) + ".";
      assert n1 == k[|p|..] && n2 == k[|p|..];
    }
  }

  /** Unhandled keys collide exactly when the response names coincide. */
  lemma UnhandledKeyInjective(n1: string, n2: string)
    ensures UnhandledKey(n1) == UnhandledKey(n2) <==> n1 == n2
  {
    if UnhandledKey(n1) == UnhandledKey(n2) {
      var c1, c2 := Condition(StatusCodeVar, n1), Condition(StatusCodeVar, n2);
      assert c1 == UnhandledKey(n1)[6..|UnhandledKey(n1)| - 1];
      assert c2 == UnhandledKey(n2)[6..|UnhandledKey(n2)| - 1];
      ConditionInjective(StatusCodeVar, n1, n2);
    }
  }

  /** Within one codec, an exact code's key sorts before its class's key ('0'..'9' < 'X'). */
  lemma ExactBeforeClass(codec: Codec, exact: string, statusClass: string)
    requires IsExactCode(exact) && IsStatusClass(statusClass) && exact[0] == statusClass[0]
    ensures Less(HandledKey(codec, exact), HandledKey(codec, statusClass))
  {
    var p := PrefixLeastSpecific + "." + CodecName(codec) + ".";
    assert HandledKey(codec, exact) == p + exact && HandledKey(codec, statusClass) == p + statusClass;
    assert Less(exact[1..], statusClass[1..]);
    LessCommonPrefix(p, exact, statusClass);
  }

  /** Within one codec, every digit-led response name sorts before "default". */
  lemma DigitLedBeforeDefault(codec: Codec, responseName: string)
    requires |responseName| > 0 && '0' <= responseName[0] <= '9'
    ensures Less(HandledKey(codec, responseName), HandledKey(codec, "default"))
  {
    var p := PrefixLeastSpecific + "." + CodecName(codec) + ".";
    assert HandledKey(codec, responseName) == p + responseName && HandledKey(codec, "default") == p + "default";
    LessCommonPrefix(p, responseName, "default");
  }

  /** Among unhandled clauses, the "default" clause ("case true:") sorts last. */
  lemma UnhandledDefaultLast(responseName: string)
    requires responseName != "default"
    ensures Less(UnhandledKey(responseName), UnhandledKey("default"))
  {
    var p := PrefixLeastSpecific + "case ";
    assert UnhandledKey(responseName) == p + (Condition(StatusCodeVar, responseName) + ":");
    assert UnhandledKey("default") == p + "true:";
    LessCommonPrefix(p, Condition(StatusCodeVar, responseName) + ":", "true:");
  }

  /**
   * Among unhandled clauses a class sorts BEFORE an exact code (" / 100" <
   * " == "), the reverse of the handled order. All unhandled actions are
   * no-ops, so the generated program behaves the same either way.
   */
  lemma UnhandledClassBeforeExact(statusClass: string, exact: string)
    requires IsStatusClass(statusClass) && IsExactCode(exact)
    ensures Less(UnhandledKey(statusClass), UnhandledKey(exact))
  {
    var p := PrefixLeastSpecific + "case " + StatusCodeVar + " ";
    assert !IsStatusClass(exact);
    assert UnhandledKey(statusClass) == p + ("/ 100 == " + [statusClass[0]] + ":");
    assert UnhandledKey(exact) == p + ("== " + exact + ":");
    LessCommonPrefix(p, "/ 100 == " + [statusClass[0]] + ":", "== " + exact + ":");
  }

  /** In the same group, a key that sorts lower appears earlier in the switch. */
  lemma {:induction false} EarlierKeyEarlierCase(cases: seq<Clause>, i: nat, j: nat)
    requires AscendingWithinGroups(cases)
    requires i < |cases| && j < |cases| && cases[i].group == cases[j].group
    requires Less(cases[i].key, cases[j].key)
    ensures i < j
  {
    LessIrreflexive(cases[i].key);
    LessAsymmetric(cases[i].key, cases[j].key);
  }

  /** In the generated switch, an exact code's decode clause precedes its class's (same codec). */
  lemma ExactBeforeClassInDispatch(op: Operation, codec: Codec, exact: string, statusClass: string, i: nat, j: nat)
    requires GenResponseUnmarshal(op).Success? && GenResponseUnmarshal(op).value.Switch?
    requires var cases := GenResponseUnmarshal(op).value.cases;
      && i < |cases| && j < |cases| && cases[i].group == Handled && cases[j].group == Handled
      && cases[i].key == HandledKey(codec, exact) && cases[j].key == HandledKey(codec, statusClass)
    requires IsExactCode(exact) && IsStatusClass(statusClass) && exact[0] == statusClass[0]
    ensures i < j
  {
    ExactBeforeClass(codec, exact, statusClass);
    EarlierKeyEarlierCase(GenResponseUnmarshal(op).value.cases, i, j);
  }

  /** In the generated switch, a digit-led decode clause precedes the "default" one (same codec). */
  lemma DefaultLastInDispatch(op: Operation, codec: Codec, responseName: string, i: nat, j: nat)
    requires GenResponseUnmarshal(op).Success? && GenResponseUnmarshal(op).value.Switch?
    requires var cases := GenResponseUnmarshal(op).value.cases;
      && i < |cases| && j < |cases| && cases[i].group == Handled && cases[j].group == Handled
      && cases[i].key == HandledKey(codec, responseName) && cases[j].key == HandledKey(codec, "default")
    requires |responseName| > 0 && '0' <= responseName[0] <= '9'
    ensures i < j
  {
    DigitLedBeforeDefault(codec, responseName);
    EarlierKeyEarlierCase(GenResponseUnmarshal(op).value.cases, i, j);
  }

  /**
   * Every decode clause of the switch comes from a type definition whose
   * response exists, has content, lists the definition's content type, and
   * whose content type is a recognised one.
   */
  lemma HandledCaseOrigin(op: Operation, k: nat) returns (i: nat)
    requires GenResponseUnmarshal(op).Success? && GenResponseUnmarshal(op).value.Switch?
    requires k < |GenResponseUnmarshal(op).value.cases| && GenResponseUnmarshal(op).value.cases[k].group == Handled
    ensures var tds := op.typeDefinitions.value;
      && i < |tds|
      && DeclaredContent(op.responses, tds[i].responseName).Some?
      && tds[i].contentTypeName in DeclaredContent(op.responses, tds[i].responseName).value
      && tds[i].definition.typeName != InterfaceTypeName
      && IsOwnDecode(tds[i], GenResponseUnmarshal(op).value.cases[k])
  {
    var tds := op.typeDefinitions.value;
    var cases := GenResponseUnmarshal(op).value.cases;
    assert |tds| > 0;
    DispatchIsAssembly(op);
    var writes := Clauses(tds, op.responses);
    assert cases[k] in cases;
    assert cases[k] in writes;
    i :| 0 <= i < |tds| && cases[k] in ClausesForDefinition(tds[i], op.responses);
    DecodeClauseOrigin(tds[i], op.responses, cases[k]);
  }

  /** A decode clause of one definition comes from its own, declared, recognised content type. */
  lemma DecodeClauseOrigin(td: ResponseTypeDefinition, responses: map<string, ResponseRef>, c: Clause)
    requires c in ClausesForDefinition(td, responses) && c.group == Handled
    ensures DeclaredContent(responses, td.responseName).Some?
    ensures td.contentTypeName in DeclaredContent(responses, td.responseName).value
    ensures td.definition.typeName != InterfaceTypeName
    ensures IsOwnDecode(td, c)
  {
  }

  /** With at least one type definition, the dispatch is the assembly of all clauses. */
  lemma DispatchIsAssembly(op: Operation)
    requires op.typeDefinitions.Success? && |op.typeDefinitions.value| > 0
    ensures GenResponseUnmarshal(op) == Success(Assemble(Clauses(op.typeDefinitions.value, op.responses)))
  {
  }

  /** A handled clause that was written has a case under its key. */
  lemma WrittenKeyHasCase(writes: seq<Clause>, c: Clause)
    requires c in writes && c.group == Handled
    ensures Assemble(writes).Switch?
    ensures exists k | 0 <= k < |Assemble(writes).cases| ::
      Assemble(writes).cases[k].group == Handled && Assemble(writes).cases[k].key == c.key
  {
    AssembleEmpty(writes);
    var handled := Store(writes, Handled);
    StoreKeys(writes, Handled);
    StoreKeys(writes, Unhandled);
    CasesComplete(handled, c.key);
    var h := Cases(handled);
    var k :| 0 <= k < |h| && h[k] == handled[c.key];
    var cases := Assemble(writes).cases;
    assert cases == h + Cases(Store(writes, Unhandled));
    assert cases[k] == h[k];
  }

  /**
   * Conversely, every type definition whose response lists its own,
   * recognised content type gets a decode case under its key in the switch
   * (the clause of a later definition with the same key may stand there).
   */
  lemma DefinitionHasCase(op: Operation, i: nat)
    requires op.typeDefinitions.Success? && i < |op.typeDefinitions.value|
    requires var td := op.typeDefinitions.value[i];
      && DeclaredContent(op.responses, td.responseName).Some?
      && td.contentTypeName in DeclaredContent(op.responses, td.responseName).value
      && Classify(td.contentTypeName).Some?
      && td.definition.typeName != InterfaceTypeName
    ensures GenResponseUnmarshal(op).Success? && GenResponseUnmarshal(op).value.Switch?
    ensures var td := op.typeDefinitions.value[i];
      var cases := GenResponseUnmarshal(op).value.cases;
      exists k | 0 <= k < |cases| ::
        cases[k].group == Handled && cases[k].key == HandledKey(Classify(td.contentTypeName).value, td.responseName)
  {
    var tds := op.typeDefinitions.value;
    var td := tds[i];
    var c := BuildUnmarshalCase(td, Classify(td.contentTypeName).value);
    var writes := Clauses(tds, op.responses);
    assert c in ClausesForDefinition(td, op.responses);
    assert c in writes;
    DispatchIsAssembly(op);
    WrittenKeyHasCase(writes, c);
  }
}
