/**
 * The small string helpers the templates call: parameter lists, the
 * response type name, newline stripping and string-slice literals.
 */
module TemplateHelpers {
  import opened Wrappers
  import opened Strings
  import opened Operations

  const ResponseTypeSuffix: string := "Response"

  /**
   * Upper-casing of one character, as used by UppercaseFirstCharacter (which
   * is not part of this model): ASCII letters only.
   */
  function ToUpper(c: char): char
  {
    if 'a' <= c <= 'z' then (c as int - 32) as char else c
  }

  /** UppercaseFirstCharacter: the first character upper-cased, the rest unchanged. */
  function UppercaseFirst(s: string): string
  {
    if |s| == 0 then "" else [ToUpper(s[0])] + s[1..]
  }

  lemma UppercaseFirstIdempotent(s: string)
    ensures UppercaseFirst(UppercaseFirst(s)) == UppercaseFirst(s)
  {
  }

  /**
   * genResponseTypeName: the operation id, capitalised, followed by
   * "Response". The result is already capitalised, so capitalising it again
   * (as genReturnTypeName does) changes nothing.
   */
  function GenResponseTypeName(operationId: string): (r: string)
    ensures |r| == |operationId| + |ResponseTypeSuffix|
    ensures r[|operationId|..] == ResponseTypeSuffix
    ensures |operationId| > 0 ==> r[0] == ToUpper(operationId[0]) && r[1..|operationId|] == operationId[1..]
    ensures UppercaseFirst(r) == r
  {
    UppercaseFirst(operationId) + ResponseTypeSuffix
  }

  /** Reference form of a parameter list: ", " in front of every part. */
  function PrefixEach(parts: seq<string>): string
  {
    if |parts| == 0 then "" else ", " + parts[0] + PrefixEach(parts[1..])
  }

  lemma {:induction false} JoinPrefixEach(parts: seq<string>)
    requires |parts| > 0
    ensures ", " + Join(parts, ", ") == PrefixEach(parts)
  {
    if |parts| > 1 {
      JoinPrefixEach(parts[1..]);
      assert ", " + Join(parts, ", ") == ", " + parts[0] + (", " + Join(parts[1..], ", "));
    }
  }

  /**
   * The shared shape of genParamArgs, genParamTypes and genParamNames: "" for
   * no parameters, else ", " + the parts joined by ", ".
   */
  function ParamList(parts: seq<string>): (r: string)
    ensures r == PrefixEach(parts)
  {
    if |parts| == 0 then ""
    else
      JoinPrefixEach(parts);
      ", " + Join(parts, ", ")
  }

  /** genParamArgs: ", name type" for every parameter, in order. */
  function GenParamArgs(params: seq<ParameterDefinition>): (r: string)
    ensures r == PrefixEach(seq(|params|, i requires 0 <= i < |params| => params[i].goVariableName + " " + params[i].typeDef))
    ensures r == "" <==> |params| == 0
  {
    ParamList(seq(|params|, i requires 0 <= i < |params| => params[i].goVariableName + " " + params[i].typeDef))
  }

  /** genParamTypes: ", type" for every parameter, in order. */
  function GenParamTypes(params: seq<ParameterDefinition>): (r: string)
    ensures r == PrefixEach(seq(|params|, i requires 0 <= i < |params| => params[i].typeDef))
    ensures r == "" <==> |params| == 0
  {
    ParamList(seq(|params|, i requires 0 <= i < |params| => params[i].typeDef))
  }

  /** genParamNames: ", name" for every parameter, in order. */
  function GenParamNames(params: seq<ParameterDefinition>): (r: string)
    ensures r == PrefixEach(seq(|params|, i requires 0 <= i < |params| => params[i].goVariableName))
    ensures r == "" <==> |params| == 0
  {
    ParamList(seq(|params|, i requires 0 <= i < |params| => params[i].goVariableName))
  }

  /** stripNewLines: every '\n' removed, every other character kept in order. */
  function StripNewLines(s: string): (r: string)
    ensures '\n' !in r
    ensures '\n' !in s ==> r == s
    ensures forall c | c != '\n' :: multiset(r)[c] == multiset(s)[c]
  {
    if |s| == 0 then ""
    else
      var rest := StripNewLines(s[1..]);
      assert s == [s[0]] + s[1..];
      if s[0] == '\n' then rest else [s[0]] + rest
  }

  lemma StripNewLinesIdempotent(s: string)
    ensures StripNewLines(StripNewLines(s)) == StripNewLines(s)
  {
  }

  lemma {:induction false} StripNewLinesConcat(a: string, b: string)
    ensures StripNewLines(a + b) == StripNewLines(a) + StripNewLines(b)
  {
    if |a| > 0 {
      assert (a + b)[1..] == a[1..] + b;
      StripNewLinesConcat(a[1..], b);
    } else {
      assert a + b == b;
    }
  }

  function Quote(s: string): string
  {
    "\"" + s + "\""
  }

  function Quotes(elements: seq<string>): seq<string>
  {
    seq(|elements|, i requires 0 <= i < |elements| => Quote(elements[i]))
  }

  /**
   * A []string literal: each element between double quotes, separated by
   * commas, with no escaping. It denotes exactly `elements` when no element
   * holds a '"', '\\' or newline (see ParseStringSliceRoundTrip).
   */
  function StringSliceLiteral(elements: seq<string>): string
  {
    "[]string{" + Join(Quotes(elements), ",") + "}"
  }

  /** An element a literal without escaping can carry verbatim. */
  predicate PlainElement(s: string)
  {
    '"' !in s && '\\' !in s && '\n' !in s
  }

  /** The index of the first '"' at or after `i`. */
  function ClosingQuote(s: string, i: nat): (r: Option<nat>)
    requires i <= |s|
    ensures r.Some? ==> i <= r.value < |s| && s[r.value] == '"' && forall j | i <= j < r.value :: s[j] != '"'
    ensures r.None? ==> forall j | i <= j < |s| :: s[j] != '"'
    decreases |s| - i
  {
    if i == |s| then None
    else if s[i] == '"' then Some(i)
    else ClosingQuote(s, i + 1)
  }

  /** Reads the body of a []string literal: double-quoted items separated by commas. */
  function ParseItems(s: string): Option<seq<string>>
    decreases |s|
  {
    if |s| == 0 || s[0] != '"' then None
    else
      match ClosingQuote(s, 1)
      case None => None
      case Some(k) =>
        var rest := s[k + 1..];
        if |rest| == 0 then Some([s[1..k]])
        else if rest[0] != ',' then None
        else
          match ParseItems(rest[1..])
          case None => None
          case Some(items) => Some([s[1..k]] + items)
  }

  /** Reads a []string literal back into its elements; None when it is not one. */
  function ParseStringSlice(s: string): Option<seq<string>>
  {
    if |s| < 10 || s[..9] != "[]string{" || s[|s| - 1] != '}' then None
    else if |s| == 10 then Some([])
    else ParseItems(s[9..|s| - 1])
  }

  lemma {:induction false} ClosingQuoteAt(s: string, i: nat, k: nat)
    requires i <= k < |s| && s[k] == '"'
    requires forall j | i <= j < k :: s[j] != '"'
    ensures ClosingQuote(s, i) == Some(k)
    decreases k - i
  {
    if i < k {
      ClosingQuoteAt(s, i + 1, k);
    }
  }

  lemma {:induction false} ParseItemsRoundTrip(elements: seq<string>)
    requires |elements| > 0
    requires forall i | 0 <= i < |elements| :: '"' !in elements[i]
    ensures ParseItems(Join(Quotes(elements), ",")) == Some(elements)
  {
    var x := elements[0];
    var s := Join(Quotes(elements), ",");
    var tail := if |elements| == 1 then "" else "," + Join(Quotes(elements[1..]), ",");
    assert Quotes(elements)[1..] == Quotes(elements[1..]);
    assert s == "\"" + x + "\"" + tail;
    assert s[1..|x| + 1] == x;
    ClosingQuoteAt(s, 1, |x| + 1);
    assert s[|x| + 2..] == tail;
    var k := |x| + 1;
    if |elements| > 1 {
      assert tail[0] == ',' && tail[1..] == Join(Quotes(elements[1..]), ",");
      ParseItemsRoundTrip(elements[1..]);
      assert ParseItems(s) == Some([s[1..k]] + elements[1..]);
      assert elements == [x] + elements[1..];
    } else {
      assert ParseItems(s) == Some([s[1..k]]);
      assert elements == [x];
    }
  }

  /** Reading a literal back gives its elements, provided none holds a '"'. */
  lemma ParseStringSliceRoundTrip(elements: seq<string>)
    requires forall i | 0 <= i < |elements| :: '"' !in elements[i]
    ensures ParseStringSlice(StringSliceLiteral(elements)) == Some(elements)
  {
    var body := Join(Quotes(elements), ",");
    var s := StringSliceLiteral(elements);
    assert s[..9] == "[]string{" && s[9..|s| - 1] == body;
    if |elements| > 0 {
      ParseItemsRoundTrip(elements);
      assert |body| >= 2 by {
        assert |Quotes(elements)[0]| == |elements[0]| + 2;
        JoinFirstLength(Quotes(elements), ",");
      }
    }
  }

  lemma JoinFirstLength(parts: seq<string>, sep: string)
    requires |parts| > 0
    ensures |Join(parts, sep)| >= |parts[0]|
  {
  }

  /** Literals of plain lists differ whenever the lists do. */
  lemma StringSliceLiteralInjective(a: seq<string>, b: seq<string>)
    requires forall i | 0 <= i < |a| :: PlainElement(a[i])
    requires forall i | 0 <= i < |b| :: PlainElement(b[i])
    requires StringSliceLiteral(a) == StringSliceLiteral(b)
    ensures a == b
  {
    ParseStringSliceRoundTrip(a);
    ParseStringSliceRoundTrip(b);
  }

  /** toStringArray as written: the elements joined by `","` between `[]string{"` and `"}`. */
  function ToStringArray(sarr: seq<string>): (r: string)
    ensures (forall i | 0 <= i < |sarr| :: '"' !in sarr[i]) ==>
      ParseStringSlice(r) == Some(if |sarr| == 0 then [""] else sarr)
  {
    if |sarr| > 0 then
      QuotedJoin(sarr);
      assert "[]string{\"" + Join(sarr, "\",\"") + "\"}" == "[]string{" + ("\"" + Join(sarr, "\",\"") + "\"") + "}";
      assert (forall i | 0 <= i < |sarr| :: '"' !in sarr[i]) ==> ParseStringSlice(StringSliceLiteral(sarr)) == Some(sarr) by {
        if forall i | 0 <= i < |sarr| :: '"' !in sarr[i] {
          ParseStringSliceRoundTrip(sarr);
        }
      }
      "[]string{\"" + Join(sarr, "\",\"") + "\"}"
    else
      ParseStringSliceRoundTrip([""]);
      assert |Quotes([""])| == 1 && Quotes([""])[0] == Quote("") == "\"\"";
      assert StringSliceLiteral([""]) == "[]string{\"\"}";
      assert "[]string{\"" + Join(sarr, "\",\"") + "\"}" == "[]string{\"\"}";
      "[]string{\"" + Join(sarr, "\",\"") + "\"}"
  }

  lemma {:induction false} QuotedJoin(sarr: seq<string>)
    requires |sarr| > 0
    ensures "\"" + Join(sarr, "\",\"") + "\"" == Join(Quotes(sarr), ",")
  {
    var quoted := Quotes(sarr);
    if |sarr| > 1 {
      var rest := sarr[1..];
      QuotedJoin(rest);
      assert quoted[1..] == Quotes(rest);
      assert Join(quoted, ",") == Quote(sarr[0]) + "," + Join(quoted[1..], ",");
      assert "\"" + Join(sarr, "\",\"") + "\""
        == "\"" + sarr[0] + "\"" + "," + ("\"" + Join(rest, "\",\"") + "\"");
    }
  }

  /** For a non-empty list, toStringArray yields the quoted elements joined by commas, in braces. */
  lemma ToStringArrayNonEmpty(sarr: seq<string>)
    requires |sarr| > 0
    ensures ToStringArray(sarr) == StringSliceLiteral(sarr)
  {
    QuotedJoin(sarr);
  }

  /**
   * For the empty list, toStringArray yields `[]string{""}`: the literal of a
   * one-element slice holding "", not of an empty slice.
   */
  lemma ToStringArrayEmptyHasOneElement()
    ensures ToStringArray([]) == StringSliceLiteral([""])
    ensures ToStringArray([]) != StringSliceLiteral([])
    ensures ParseStringSlice(ToStringArray([])) == Some([""])
  {
    ToStringArrayNonEmpty([""]);
    assert StringSliceLiteral([]) == "[]string{}";
    assert |ToStringArray([])| != |StringSliceLiteral([])|;
  }

  /**
   * toStringArray with the empty list handled: the quoted elements joined by
   * commas, in braces, and `[]string{}` for the empty list.
   */
  function ToStringArrayCorrected(sarr: seq<string>): (r: string)
    ensures r == StringSliceLiteral(sarr)
    ensures (forall i | 0 <= i < |sarr| :: '"' !in sarr[i]) ==> ParseStringSlice(r) == Some(sarr)
  {
    assert (forall i | 0 <= i < |sarr| :: '"' !in sarr[i]) ==> ParseStringSlice(StringSliceLiteral(sarr)) == Some(sarr) by {
      if forall i | 0 <= i < |sarr| :: '"' !in sarr[i] {
        ParseStringSliceRoundTrip(sarr);
      }
    }
    if |sarr| == 0 then "[]string{}"
    else
      ToStringArrayNonEmpty(sarr);
      ToStringArray(sarr)
  }
}
