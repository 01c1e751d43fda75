/** Documents and the collaborators the conversion passes call but do not
    implement: the front-matter parser `fm`, its inverse `withFm`, and the
    two conversion engines `h2m` and `m2h`. Each collaborator is a function
    value; one that can throw returns a `Result`. */
module Documents {
  import opened Wrappers

  /** A document yielded by the document source: `doc.url`,
      `doc.fileInfo.path`, `doc.rawContent` and `doc.isMarkdown`. */
  datatype Document = Document(url: string, path: string, rawContent: string, isMarkdown: bool)

  /** The `--mode` option of the h2m command. */
  datatype Mode = Dry | Keep | Replace

  /** `fm(raw)`: the raw front-matter block and the body after it. */
  datatype Parsed = Parsed(frontmatter: string, body: string)

  /** `h2m(html)`: the Markdown text and the labels of unhandled elements. */
  datatype Translation = Translation(markdown: string, unhandled: seq<string>)

  datatype Collaborators = Collaborators(
    parseFrontMatter: string -> Result<Parsed, string>,
    withFrontMatter: (string, string) -> string,
    htmlToMarkdown: string -> Result<Translation, string>,
    markdownToHtml: string -> Result<string, string>)

  /** Why a pass stopped: a collaborator threw, or `unlinkSync` found no file. */
  datatype Abort = CollaboratorError(message: string) | NoSuchFile(path: string)

  /** The converted file of an HTML document and its unhandled labels. */
  datatype Converted = Converted(content: string, unhandled: seq<string>)

  /** `fm(doc.rawContent)`, `h2m(body)` and `withFm(frontmatter, markdown)`
      for one HTML document; the first failure is the result. */
  function ConvertHtmlDocument(c: Collaborators, d: Document): Result<Converted, string>
  {
    match c.parseFrontMatter(d.rawContent)
    case Failure(e) => Failure(e)
    case Success(p) =>
      match c.htmlToMarkdown(p.body)
      case Failure(e) => Failure(e)
      case Success(t) => Success(Converted(c.withFrontMatter(p.frontmatter, t.markdown), t.unhandled))
  }

  /** `fm(doc.rawContent)`, `m2h(body)` and `withFm(frontmatter, html)` for
      one Markdown document. */
  function ConvertMarkdownDocument(c: Collaborators, d: Document): Result<string, string>
  {
    match c.parseFrontMatter(d.rawContent)
    case Failure(e) => Failure(e)
    case Success(p) =>
      match c.markdownToHtml(p.body)
      case Failure(e) => Failure(e)
      case Success(h) => Success(c.withFrontMatter(p.frontmatter, h))
  }

  /** The law the front-matter codec is relied on for: front matter that
      `fm` split off a document, joined with any new body by `withFm`, parses
      again and gives back the same front-matter block. Only the body of a
      document is converted; its metadata block passes through unchanged. */
  ghost predicate FrontMatterKept(c: Collaborators)
  {
    forall raw, body :: c.parseFrontMatter(raw).Success? ==>
      var joined := c.withFrontMatter(c.parseFrontMatter(raw).value.frontmatter, body);
      c.parseFrontMatter(joined).Success? &&
      c.parseFrontMatter(joined).value.frontmatter == c.parseFrontMatter(raw).value.frontmatter
  }

  /** A further law, assumed rather than promised by the codec: when such a
      joined text parses, the body read back is the body that was joined. */
  ghost predicate BodyKept(c: Collaborators)
  {
    forall raw, body :: c.parseFrontMatter(raw).Success? ==>
      var joined := c.withFrontMatter(c.parseFrontMatter(raw).value.frontmatter, body);
      c.parseFrontMatter(joined).Success? ==> c.parseFrontMatter(joined).value.body == body
  }

  /** A converted HTML document parses and carries the original front
      matter; under `BodyKept` its body is the engine's Markdown. */
  lemma HtmlConversionKeepsFrontMatter(c: Collaborators, d: Document)
    requires FrontMatterKept(c)
    requires ConvertHtmlDocument(c, d).Success?
    ensures c.parseFrontMatter(d.rawContent).Success?
    ensures c.parseFrontMatter(ConvertHtmlDocument(c, d).value.content).Success?
    ensures c.parseFrontMatter(ConvertHtmlDocument(c, d).value.content).value.frontmatter
         == c.parseFrontMatter(d.rawContent).value.frontmatter
    ensures BodyKept(c) ==>
      c.htmlToMarkdown(c.parseFrontMatter(d.rawContent).value.body).Success? &&
      c.parseFrontMatter(ConvertHtmlDocument(c, d).value.content).value.body
        == c.htmlToMarkdown(c.parseFrontMatter(d.rawContent).value.body).value.markdown
  {
    var p := c.parseFrontMatter(d.rawContent).value;
    var t := c.htmlToMarkdown(p.body).value;
    assert ConvertHtmlDocument(c, d).value.content == c.withFrontMatter(p.frontmatter, t.markdown);
  }

  /** A converted Markdown document parses and carries the original front
      matter; under `BodyKept` its body is the engine's HTML. */
  lemma MarkdownConversionKeepsFrontMatter(c: Collaborators, d: Document)
    requires FrontMatterKept(c)
    requires ConvertMarkdownDocument(c, d).Success?
    ensures c.parseFrontMatter(d.rawContent).Success?
    ensures c.parseFrontMatter(ConvertMarkdownDocument(c, d).value).Success?
    ensures c.parseFrontMatter(ConvertMarkdownDocument(c, d).value).value.frontmatter
         == c.parseFrontMatter(d.rawContent).value.frontmatter
    ensures BodyKept(c) ==>
      c.markdownToHtml(c.parseFrontMatter(d.rawContent).value.body).Success? &&
      c.parseFrontMatter(ConvertMarkdownDocument(c, d).value).value.body
        == c.markdownToHtml(c.parseFrontMatter(d.rawContent).value.body).value
  {
    var p := c.parseFrontMatter(d.rawContent).value;
    var h := c.markdownToHtml(p.body).value;
    assert ConvertMarkdownDocument(c, d).value == c.withFrontMatter(p.frontmatter, h);
  }

  /** A codec whose parser rejects every text not starting with `#`. */
  function MarkerCodec(): Collaborators
  {
    Collaborators(
      raw => if |raw| > 0 && raw[0] == '#' then Success(Parsed("", raw[1..])) else Failure("no front matter"),
      (fm, body) => "#" + body,
      html => Success(Translation(html, [])),
      md => Success(md))
  }

  /** Both laws admit a parser that rejects some texts, as `fm` does. */
  lemma LawsAdmitRejectingParser()
    ensures MarkerCodec().parseFrontMatter("").Failure?
    ensures FrontMatterKept(MarkerCodec()) && BodyKept(MarkerCodec())
  {
    var c := MarkerCodec();
    forall raw, body | c.parseFrontMatter(raw).Success?
      ensures c.parseFrontMatter(c.withFrontMatter(c.parseFrontMatter(raw).value.frontmatter, body))
           == Success(Parsed("", body))
    {
      assert ("#" + body)[1..] == body;
    }
  }
}
