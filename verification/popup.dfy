/** The HTML shown in the shared info window for a marker, built from the
    Wikipedia opensearch answer `[query, titles, descriptions, urls]`. */
module Popup {
  import opened Text

  /** An opensearch answer: the query echoed back, then the lists of result
      titles, descriptions and URLs (only their first elements are used). */
  datatype WikiData = WikiData(query: string, titles: seq<string>, descriptions: seq<string>, urls: seq<string>)

  /** JavaScript truthiness of `xs[0]`: it exists and is not the empty
      string. */
  predicate FirstPresent(xs: seq<string>)
  {
    |xs| > 0 && xs[0] != ""
  }

  const Opening := "<div class='infoWindow'><h3>Results from Wikipedia for: "
  const NoDescription := "<p>No description available</p>"
  const NoUrl := "<p>No URL available</p>"

  /** The header line naming the query. */
  function Header(d: WikiData): string
  {
    Opening + d.query + "</h3>"
  }

  /** The optional `<h1>` heading: present only when a first title is. */
  function Heading(d: WikiData): string
  {
    if FirstPresent(d.titles) then "<h1>" + d.titles[0] + "</h1>" else ""
  }

  /** The description paragraph, with its default text. */
  function Description(d: WikiData): string
  {
    if FirstPresent(d.descriptions) then "<p>" + d.descriptions[0] + "</p>" else NoDescription
  }

  /** The link to the first URL, or the default paragraph. */
  function Link(d: WikiData): string
  {
    if FirstPresent(d.urls) then "<a href='" + d.urls[0] + "'>" + d.urls[0] + "</a>" else NoUrl
  }

  /** The info-window content for an answer: the header, an optional
      `<h1>` heading, a description paragraph and a link, closed by
      `</div>`. */
  function Content(d: WikiData): string
  {
    Header(d) + Heading(d) + Description(d) + (Link(d) + "</div>")
  }

  /** The content opens with the header naming the query and closes the
      `infoWindow` div. */
  lemma ContentFrame(d: WikiData)
    ensures Header(d) <= Content(d)
    ensures EndsWith(Content(d), "</div>")
  {
    LinkShape(d);
    Layout(Header(d), Heading(d), Description(d), Link(d) + "</div>");
  }

  /** Right after the header comes an `<h1>` heading exactly when the
      answer has a first title, and then it is that title. */
  lemma ContentHeading(d: WikiData)
    ensures FirstPresent(d.titles) <==> "<h1>" <= Content(d)[|Header(d)|..]
    ensures FirstPresent(d.titles) ==> "<h1>" + d.titles[0] + "</h1>" <= Content(d)[|Header(d)|..]
  {
    var tail := Link(d) + "</div>";
    Layout(Header(d), Heading(d), Description(d), tail);
    HeadingShape(d, tail);
  }

  /** The description paragraph holds the first description, or the text
      "No description available" when there is none. */
  lemma ContentDescription(d: WikiData)
    ensures FirstPresent(d.descriptions) ==> Contains(Content(d), "<p>" + d.descriptions[0] + "</p>")
    ensures !FirstPresent(d.descriptions) ==> Contains(Content(d), NoDescription)
  {
    Layout(Header(d), Heading(d), Description(d), Link(d) + "</div>");
  }

  /** The content ends with a link to the first URL, or with the text
      "No URL available" when there is none. */
  lemma ContentLink(d: WikiData)
    ensures FirstPresent(d.urls) ==>
              EndsWith(Content(d), "<a href='" + d.urls[0] + "'>" + d.urls[0] + "</a></div>")
    ensures !FirstPresent(d.urls) ==> EndsWith(Content(d), NoUrl + "</div>")
  {
    var tail := Link(d) + "</div>";
    LinkShape(d);
    Layout(Header(d), Heading(d), Description(d), tail);
  }

  /** The closing part: the link or its default, then `</div>`. */
  lemma LinkShape(d: WikiData)
    ensures FirstPresent(d.urls) ==>
              Link(d) + "</div>" == "<a href='" + d.urls[0] + "'>" + d.urls[0] + "</a></div>"
    ensures !FirstPresent(d.urls) ==> Link(d) + "</div>" == NoUrl + "</div>"
    ensures EndsWith(Link(d) + "</div>", "</div>")
  {
    var t := Link(d) + "</div>";
    assert t[|t| - 6..] == "</div>";
  }

  /** The text after the header starts with `<h1>` exactly when a first
      title is present, since the description always starts with `<p>`. */
  lemma HeadingShape(d: WikiData, tail: string)
    ensures FirstPresent(d.titles) <==> "<h1>" <= Heading(d) + Description(d) + tail
    ensures FirstPresent(d.titles) ==> "<h1>" + d.titles[0] + "</h1>" <= Heading(d) + Description(d) + tail
  {
    var rest := Heading(d) + Description(d) + tail;
    if !FirstPresent(d.titles) {
      assert rest[1] == 'p';
    } else {
      var h := "<h1>" + d.titles[0] + "</h1>";
      assert rest == h + (Description(d) + tail);
      assert rest[..4] == "<h1>";
    }
  }

  /** Where each part sits in a concatenation of four strings. */
  lemma Layout(a: string, b: string, c: string, e: string)
    ensures a <= a + b + c + e
    ensures EndsWith(e, "</div>") ==> EndsWith(a + b + c + e, "</div>")
    ensures (a + b + c + e)[|a|..] == b + c + e
    ensures OccursAt(a + b + c + e, c, |a + b|) && Contains(a + b + c + e, c)
    ensures EndsWith(a + b + c + e, e)
  {
    var r := a + b + c + e;
    assert r == (a + b) + c + e;
    assert r[|a + b|..|a + b| + |c|] == c;
    var k := |a + b|;
    assert 0 <= k <= |r| && OccursAt(r, c, k);
    assert r[|r| - |e|..] == e;
  }
}
