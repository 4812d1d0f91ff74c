/** getConditionOfResponseName: the Go boolean expression testing a status code. */
module StatusConditions {

  /** "1XX" .. "5XX" exactly: upper-case X, leading digit 1 to 5. */
  predicate IsStatusClass(responseName: string)
  {
    |responseName| == 3 && '1' <= responseName[0] <= '5' && responseName[1] == 'X' && responseName[2] == 'X'
  }

  const StatusClasses: seq<string> := ["1XX", "2XX", "3XX", "4XX", "5XX"]

  lemma StatusClassesAreClasses(responseName: string)
    ensures responseName in StatusClasses <==> IsStatusClass(responseName)
  {
    if IsStatusClass(responseName) {
      var d := responseName[0];
      assert responseName == [d] + "XX";
      if d == '1' {
        assert responseName == StatusClasses[0];
      } else if d == '2' {
        assert responseName == StatusClasses[1];
      } else if d == '3' {
        assert responseName == StatusClasses[2];
      } else if d == '4' {
        assert responseName == StatusClasses[3];
      } else {
        assert responseName == StatusClasses[4];
      }
    }
  }

  function Condition(statusCodeVar: string, responseName: string): (r: string)
    ensures responseName == "default" ==> r == "true"
    ensures IsStatusClass(responseName) ==> r == statusCodeVar + " / 100 == " + [responseName[0]]
    ensures responseName != "default" && !IsStatusClass(responseName) ==> r == statusCodeVar + " == " + responseName
  {
    StatusClassesAreClasses(responseName);
    if responseName == "default" then "true"
    else if responseName in StatusClasses then statusCodeVar + " / 100 == " + responseName[..1]
    else statusCodeVar + " == " + responseName
  }

  /** A lower-case class such as "2xx" is compared as a literal status code. */
  lemma LowerCaseClassIsLiteral(statusCodeVar: string)
    ensures Condition(statusCodeVar, "2xx") == statusCodeVar + " == 2xx"
  {
  }

  /** Where the generated comparisons differ from each other and from "true". */
  lemma ConditionShape(v: string, n: string)
    ensures n != "default" ==> |Condition(v, n)| >= |v| + 4 && Condition(v, n)[|v|] == ' '
    ensures n != "default" && IsStatusClass(n) ==> Condition(v, n)[|v| + 1] == '/'
    ensures n != "default" && !IsStatusClass(n) ==> Condition(v, n)[|v| + 1] == '='
  {
  }

  /**
   * Different response names give different conditions, so two clauses keyed
   * by their condition collide only when they come from the same response name.
   */
  lemma ConditionInjective(v: string, a: string, b: string)
    requires Condition(v, a) == Condition(v, b)
    ensures a == b
  {
    ConditionShape(v, a);
    ConditionShape(v, b);
    if a != "default" && b != "default" && IsStatusClass(a) && IsStatusClass(b) {
      assert Condition(v, a)[|v| + 10] == a[0];
      assert Condition(v, b)[|v| + 10] == b[0];
      assert a == [a[0]] + "XX" && b == [b[0]] + "XX";
    } else if a != "default" && b != "default" && !IsStatusClass(a) && !IsStatusClass(b) {
      assert a == Condition(v, a)[|v| + 4..];
      assert b == Condition(v, b)[|v| + 4..];
    }
  }
}
