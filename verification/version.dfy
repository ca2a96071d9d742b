/**
 Version detection (`GetHTMLVersion`): a presence test over the values of the
 response's Content-Type header, not a doctype parse.
 */
module Version {
  import opened Strings

  const Html5: string := "HTML5"
  const Unknown: string := "Unknown"

  /** Some Content-Type value mentions "html" (case-sensitively). */
  predicate DeclaresHtml(contentTypes: seq<string>) {
    exists i :: 0 <= i < |contentTypes| && Contains(contentTypes[i], "html")
  }

  /** Scans the header values in order and answers "HTML5" at the first one that
      contains "html"; "Unknown" when none does, including when there is none. */
  function GetHtmlVersion(contentTypes: seq<string>): (r: string)
    ensures r == Html5 || r == Unknown
    ensures r == Html5 <==> DeclaresHtml(contentTypes)
  {
    if contentTypes == [] then Unknown
    else if Contains(contentTypes[0], "html") then Html5
    else
      assert forall i :: 1 <= i < |contentTypes| ==> contentTypes[i] == contentTypes[1..][i - 1];
      GetHtmlVersion(contentTypes[1..])
  }

  /** The header value the tests use, "text/html", gives "HTML5". */
  lemma TextHtmlIsHtml5()
    ensures GetHtmlVersion(["text/html"]) == Html5
  {
    ContainsInfix("text/", "html", "");
    assert "text/html" == "text/" + "html" + "";
  }

  /** The test is case-sensitive: "TEXT/HTML" alone gives "Unknown". */
  lemma UpperCaseIsUnknown()
    ensures GetHtmlVersion(["TEXT/HTML"]) == Unknown
  {
    var s := "TEXT/HTML";
    forall i | 0 <= i <= 5 ensures !OccursAt(s, "html", i) {
      assert s[i..i + 4][0] == s[i] != 'h';
    }
  }
}
