/**
 * The README edit inside `create_pull_request`: find the category's section
 * heading, find the end of the table under it, and insert one row there,
 * leaving every other byte of the document as it was.
 */
module Splice {
  import opened Wrappers
  import opened Strings

  function SectionPattern(categoryName: string): string {
    "## " + categoryName + "\n\n"
  }

  /**
   * The offset the new row is inserted at, or `None` when the section
   * heading does not occur. It is the first blank line ("\n\n") at or after
   * the first "|" that follows the heading, or the end of the document.
   */
  function InsertionPoint(content: string, categoryName: string): (e: Option<nat>)
    ensures e.None? <==> !Contains(content, SectionPattern(categoryName))
    ensures e.Some? ==> e.value <= |content|
    ensures e.Some? ==> e.value == |content| || OccursAt(content, "\n\n", e.value)
    ensures e.Some? ==> Find(content, SectionPattern(categoryName), 0) <= e.value
  {
    FindAgreesWithContains(content, SectionPattern(categoryName));
    var h := Find(content, SectionPattern(categoryName), 0);
    if h == -1 then None
    else
      var p := Find(content, "|", h);
      var e := Find(content, "\n\n", p);
      Some(if e == -1 then |content| else e)
  }

  /**
   * The splice: `content[:table_end] + "\n" + entry + content[table_end:]`,
   * or `None` (nothing written) when the section is missing.
   */
  function Splice(content: string, categoryName: string, entry: string): (r: Option<string>)
    ensures r.None? <==> !Contains(content, SectionPattern(categoryName))
    ensures r.Some? ==>
      var e := InsertionPoint(content, categoryName).value;
      && |r.value| == |content| + 1 + |entry|
      && r.value[..e] == content[..e]
      && r.value[e..e + 1 + |entry|] == "\n" + entry
      && r.value[e + 1 + |entry|..] == content[e..]
  {
    match InsertionPoint(content, categoryName)
    case None => None
    case Some(e) =>
      var r := content[..e] + "\n" + entry + content[e..];
      assert r == content[..e] + ("\n" + entry) + content[e..];
      Some(r)
  }

  /** Deleting the inserted newline and row gives back the original document byte for byte. */
  lemma SpliceRoundTrip(content: string, categoryName: string, entry: string)
    requires Splice(content, categoryName, entry).Some?
    ensures var r := Splice(content, categoryName, entry).value;
            var e := InsertionPoint(content, categoryName).value;
            r[..e] + r[e + 1 + |entry|..] == content
  {
    var e := InsertionPoint(content, categoryName).value;
    assert content == content[..e] + content[e..];
  }

  /** With a "|" after the heading, no blank line lies between it and the insertion point. */
  lemma InsertionAtFirstBlankLineAfterTable(content: string, categoryName: string)
    requires Contains(content, SectionPattern(categoryName))
    requires Find(content, "|", Find(content, SectionPattern(categoryName), 0)) >= 0
    ensures var p := Find(content, "|", Find(content, SectionPattern(categoryName), 0));
            var e := InsertionPoint(content, categoryName).value;
            p <= e && forall k :: p <= k < e ==> !OccursAt(content, "\n\n", k)
  {
    FindAgreesWithContains(content, SectionPattern(categoryName));
  }

  /**
   * With no "|" after the heading, `find` returns -1, the search for the
   * blank line starts at the last character and fails, and the row is
   * appended at the very end of the document.
   */
  lemma NoTableAppendsAtEnd(content: string, categoryName: string)
    requires Contains(content, SectionPattern(categoryName))
    requires Find(content, "|", Find(content, SectionPattern(categoryName), 0)) == -1
    ensures InsertionPoint(content, categoryName) == Some(|content|)
  {
    FindAgreesWithContains(content, SectionPattern(categoryName));
    assert forall k :: FindStart(content, -1) <= k ==> !OccursAt(content, "\n\n", k);
  }
}
