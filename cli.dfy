/** The two actions of markdown/cli.ts as they run: loops over the documents
    that write to and unlink from a file system object, build the report
    lines in a growing buffer and keep a running total. Each is proved to
    end in the state that its pass function in `HtmlToMarkdown` or
    `MarkdownToHtml` describes. */
module Cli {
  import opened Wrappers
  import opened Paths
  import opened Lines
  import opened Aggregator
  import opened Documents
  import H = HtmlToMarkdown
  import M = MarkdownToHtml

  /** The file system as the actions see it: path to file contents. */
  class FileSystem {
    var files: map<string, string>

    constructor (initial: map<string, string>)
      ensures files == initial
    {
      files := initial;
    }

    /** `fs.writeFileSync(path, content)`: creates or overwrites the file. */
    method WriteFile(path: string, content: string)
      modifies this
      ensures files == old(files)[path := content]
    {
      files := files[path := content];
    }

    /** `fs.unlinkSync(path)`: removes the file; `ok` is false (the call
        throws) when there is no such file. */
    method Unlink(path: string) returns (ok: bool)
      modifies this
      ensures ok <==> path in old(files)
      ensures files == old(files) - {path}
    {
      ok := path in files;
      files := files - {path};
    }
  }

  /** The lines pushed onto `unhandledReportLines` for one document: its
      id, `Array.from(toCountMap(unhandled))` sorted by the comparator and
      formatted, and an empty line. */
  method ReportBlockFor(url: string, unhandled: seq<string>) returns (lines: seq<string>)
    ensures lines == ReportBlock(url, unhandled)
  {
    var order, counts := ToCountMap(unhandled);
    var sorted := SortByCount(FromCountMap(order, counts));
    lines := [url] + FormatLines(sorted) + [""];
  }

  /** Records the labels a document left unhandled: when there are any,
      the total grows by their number and the document's block is pushed
      onto the report lines. */
  method RecordUnhandled(url: string, unhandled: seq<string>, total: nat, reportLines: seq<string>,
                         ghost s: H.PassState)
    returns (total': nat, reportLines': seq<string>)
    requires total == s.total && reportLines == H.ReportLines(s.reported)
    ensures total' == H.Record(s, url, unhandled).total
    ensures reportLines' == H.ReportLines(H.Record(s, url, unhandled).reported)
  {
    total', reportLines' := total, reportLines;
    if |unhandled| > 0 {
      total' := total + |unhandled|;
      var block := ReportBlockFor(url, unhandled);
      reportLines' := reportLines + block;
      H.ReportLinesSnoc(s.reported, H.Reported(url, unhandled));
    }
  }

  /** The mode policy for one converted document: `dry` touches nothing,
      `keep` writes the Markdown file beside the HTML one, `replace` writes
      it and then unlinks the HTML file. The result is the error that
      stops the pass, if the unlink fails. */
  method ApplyMode(fs: FileSystem, path: string, content: string, mode: Mode,
                   ghost s: H.PassState)
    returns (abort: Option<Abort>)
    requires s.files == fs.files && s.abort == None
    modifies fs
    ensures H.Persist(s, path, content, mode) == s.(files := fs.files, abort := abort)
  {
    abort := None;
    if mode == Replace || mode == Keep {
      fs.WriteFile(MarkdownPath(path), content);
      if mode == Replace {
        var ok := fs.Unlink(path);
        if !ok {
          abort := Some(NoSuchFile(path));
        }
      }
    }
  }

  /** The rest of an iteration once a document is converted: record its
      unhandled labels, then apply the mode policy to its new content. */
  method ConvertedDocument(fs: FileSystem, doc: Document, mode: Mode, content: string,
                           unhandled: seq<string>, total: nat, reportLines: seq<string>,
                           ghost s: H.PassState)
    returns (total': nat, reportLines': seq<string>, abort: Option<Abort>,
             ghost reported': seq<H.Reported>)
    requires s.files == fs.files && s.abort == None
    requires total == s.total && reportLines == H.ReportLines(s.reported)
    modifies fs
    ensures reportLines' == H.ReportLines(reported')
    ensures H.Persist(H.Record(s, doc.url, unhandled), doc.path, content, mode)
         == s.(files := fs.files, total := total', reported := reported', abort := abort)
  {
    ghost var recorded := H.Record(s, doc.url, unhandled);
    total', reportLines' := RecordUnhandled(doc.url, unhandled, total, reportLines, s);
    reported' := recorded.reported;
    abort := ApplyMode(fs, doc.path, content, mode, recorded);
  }

  /** One iteration of the `h2m` loop: advance the progress count, skip a
      Markdown document, otherwise parse, convert, record the unhandled
      labels and apply the mode policy. The new state is the one `Step`
      gives. */
  method HtmlToMarkdownDocument(fs: FileSystem, doc: Document, mode: Mode, c: Collaborators,
                                total: nat, reportLines: seq<string>, progress: nat,
                                ghost reported: seq<H.Reported>)
    returns (total': nat, reportLines': seq<string>, progress': nat, abort: Option<Abort>,
             ghost reported': seq<H.Reported>)
    requires reportLines == H.ReportLines(reported)
    modifies fs
    ensures reportLines' == H.ReportLines(reported')
    ensures H.PassState(fs.files, total', reported', progress', abort)
         == H.Step(H.PassState(old(fs.files), total, reported, progress, None), doc, mode, c)
  {
    ghost var before := H.PassState(fs.files, total, reported, progress, None);
    total', reportLines', progress', abort, reported' := total, reportLines, progress + 1, None, reported;
    if doc.isMarkdown {
      return;
    }
    var parsed := c.parseFrontMatter(doc.rawContent);
    if parsed.Failure? {
      abort := Some(CollaboratorError(parsed.error));
      H.StepFailed(before, doc, mode, c);
      return;
    }
    var translated := c.htmlToMarkdown(parsed.value.body);
    if translated.Failure? {
      abort := Some(CollaboratorError(translated.error));
      H.StepFailed(before, doc, mode, c);
      return;
    }
    H.StepConverted(before, doc, mode, c);
    var content := c.withFrontMatter(parsed.value.frontmatter, translated.value.markdown);
    total', reportLines', abort, reported' :=
      ConvertedDocument(fs, doc, mode, content, translated.value.unhandled, total, reportLines,
                        before.(progress := progress'));
  }

  /** The `h2m` loop over every document. The outputs are
      `totalUnhandledCount`, `unhandledReportLines`, the progress bar's
      count, and the error the loop stopped on, if any; the file system and
      the outputs end as `Run` describes. */
  method HtmlToMarkdownPass(fs: FileSystem, docs: seq<Document>, mode: Mode, c: Collaborators)
    returns (total: nat, reportLines: seq<string>, progress: nat, abort: Option<Abort>,
             ghost reported: seq<H.Reported>)
    modifies fs
    ensures reportLines == H.ReportLines(reported)
    ensures H.PassState(fs.files, total, reported, progress, abort)
         == H.Run(H.Start(old(fs.files)), docs, mode, c)
  {
    total, reportLines, progress, abort, reported := 0, [], 0, None, [];
    ghost var final := H.Run(H.Start(fs.files), docs, mode, c);
    var i := 0;
    while i < |docs| && abort == None
      invariant 0 <= i <= |docs|
      invariant final == H.Run(H.Start(old(fs.files)), docs, mode, c)
      invariant reportLines == H.ReportLines(reported)
      invariant H.Run(H.PassState(fs.files, total, reported, progress, abort), docs[i..], mode, c) == final
    {
      H.RunFirst(H.PassState(fs.files, total, reported, progress, abort), docs, i, mode, c);
      total, reportLines, progress, abort, reported :=
        HtmlToMarkdownDocument(fs, docs[i], mode, c, total, reportLines, progress, reported);
      i := i + 1;
    }
    if abort.Some? {
      H.RunAfterAbort(H.PassState(fs.files, total, reported, progress, abort), docs[i..], mode, c);
    }
  }

  /** The `h2m` action: the loop, then the report file, written when the
      loop did not stop and the total is non-zero. */
  method HtmlToMarkdownAction(fs: FileSystem, docs: seq<Document>, mode: Mode, c: Collaborators,
                              reportName: string)
    returns (total: nat, reportLines: seq<string>, progress: nat, abort: Option<Abort>)
    modifies fs
    ensures var a := H.Action(old(fs.files), docs, mode, c, reportName);
      && fs.files == a.files
      && total == a.total
      && reportLines == H.ReportLines(a.reported)
      && progress == a.progress
      && abort == a.abort
  {
    ghost var reported;
    total, reportLines, progress, abort, reported := HtmlToMarkdownPass(fs, docs, mode, c);
    if abort.None? && total != 0 {
      fs.WriteFile(reportName, Join(reportLines, "\n"));
    }
  }

  /** The `m2h` action; the output is the error it stopped on, if any. */
  method MarkdownToHtmlAction(fs: FileSystem, docs: seq<Document>, c: Collaborators)
    returns (abort: Option<Abort>)
    modifies fs
    ensures var r := M.Run(M.Start(old(fs.files)), docs, c);
      fs.files == r.files && abort == r.abort
  {
    abort := None;
    ghost var start := M.Start(fs.files);
    var i := 0;
    while i < |docs|
      invariant 0 <= i <= |docs|
      invariant start == M.Start(old(fs.files))
      invariant M.Run(M.PassState(fs.files, None), docs[i..], c) == M.Run(start, docs, c)
    {
      var doc := docs[i];
      ghost var before := M.PassState(fs.files, None);
      assert docs[i..][0] == doc && docs[i..][1..] == docs[i + 1..];
      if doc.isMarkdown {
        var parsed := c.parseFrontMatter(doc.rawContent);
        if parsed.Failure? {
          abort := Some(CollaboratorError(parsed.error));
          assert M.Step(before, doc, c) == M.PassState(fs.files, abort);
          M.RunAfterAbort(M.PassState(fs.files, abort), docs[i + 1..], c);
          return;
        }
        var html := c.markdownToHtml(parsed.value.body);
        if html.Failure? {
          abort := Some(CollaboratorError(html.error));
          assert M.Step(before, doc, c) == M.PassState(fs.files, abort);
          M.RunAfterAbort(M.PassState(fs.files, abort), docs[i + 1..], c);
          return;
        }
        fs.WriteFile(HtmlPath(doc.path), c.withFrontMatter(parsed.value.frontmatter, html.value));
      }
      assert M.Step(before, doc, c) == M.PassState(fs.files, None);
      i := i + 1;
    }
  }
}
