/** The `h2m` action of markdown/cli.ts as a function of its inputs: one
    sequential pass over the documents that skips Markdown documents,
    converts the others, records their unhandled labels in the report, and
    writes, keeps or removes files according to the mode; then the report
    file, written only when some label went unhandled. */
module HtmlToMarkdown {
  import opened Wrappers
  import opened Paths
  import opened Lines
  import opened Aggregator
  import opened Documents

  /** A document that went into the report: its id and the labels the
      converter left unhandled in it. */
  datatype Reported = Reported(url: string, unhandled: seq<string>)

  /** What the pass has done so far: the file map, `totalUnhandledCount`,
      the documents reported so far, in order, the progress bar's count,
      and whether it stopped on an error. */
  datatype PassState = PassState(
    files: map<string, string>,
    total: nat,
    reported: seq<Reported>,
    progress: nat,
    abort: Option<Abort>)

  function Start(files: map<string, string>): PassState
  {
    PassState(files, 0, [], 0, None)
  }

  /** `unhandledReportLines`: the block of each reported document, one
      after the other. */
  function ReportLines(reported: seq<Reported>): seq<string>
  {
    if reported == [] then []
    else
      var last := reported[|reported| - 1];
      ReportLines(reported[..|reported| - 1]) + ReportBlock(last.url, last.unhandled)
  }

  /** The report file's text. */
  function ReportText(s: PassState): string
  {
    Join(ReportLines(s.reported), "\n")
  }

  /** Counting and reporting a document's unhandled labels, if it has any. */
  function Record(s: PassState, url: string, unhandled: seq<string>): PassState
  {
    if |unhandled| > 0 then
      s.(total := s.total + |unhandled|, reported := s.reported + [Reported(url, unhandled)])
    else s
  }

  /** The mode policy: `dry` writes nothing; `keep` writes the Markdown file;
      `replace` writes it and then unlinks the original, which throws when
      the original is no longer there. */
  function Persist(s: PassState, path: string, content: string, mode: Mode): PassState
  {
    match mode
    case Dry => s
    case Keep => s.(files := s.files[MarkdownPath(path) := content])
    case Replace =>
      var written := s.files[MarkdownPath(path) := content];
      if path in written then s.(files := written - {path})
      else s.(files := written, abort := Some(NoSuchFile(path)))
  }

  /** One iteration of the loop: advance the progress bar, skip a Markdown
      document, otherwise convert, record and persist. Once the pass has
      stopped, nothing happens any more. */
  function Step(s: PassState, d: Document, mode: Mode, c: Collaborators): PassState
  {
    if s.abort.Some? then s
    else
      var advanced := s.(progress := s.progress + 1);
      if d.isMarkdown then advanced
      else
        match ConvertHtmlDocument(c, d)
        case Failure(e) => advanced.(abort := Some(CollaboratorError(e)))
        case Success(out) => Persist(Record(advanced, d.url, out.unhandled), d.path, out.content, mode)
  }

  /** The loop over all documents, in order. */
  function Run(s: PassState, docs: seq<Document>, mode: Mode, c: Collaborators): PassState
    decreases |docs|
  {
    if docs == [] then s else Run(Step(s, docs[0], mode, c), docs[1..], mode, c)
  }

  /** The whole action: the pass, then the report file when the pass did not
      stop and the total is non-zero. */
  function Action(files: map<string, string>, docs: seq<Document>, mode: Mode, c: Collaborators,
                  reportName: string): PassState
  {
    Finish(Run(Start(files), docs, mode, c), reportName)
  }

  /** After the loop: the report file is written when the pass did not stop
      and the total is non-zero. */
  function Finish(s: PassState, reportName: string): PassState
  {
    if s.abort.None? && s.total != 0 then s.(files := s.files[reportName := ReportText(s)]) else s
  }

  /** A step over an HTML document whose front matter parses and whose body
      converts records its labels and then applies the mode policy. */
  lemma StepConverted(s: PassState, d: Document, mode: Mode, c: Collaborators)
    requires s.abort.None? && !d.isMarkdown
    requires c.parseFrontMatter(d.rawContent).Success?
    requires c.htmlToMarkdown(c.parseFrontMatter(d.rawContent).value.body).Success?
    ensures var p := c.parseFrontMatter(d.rawContent).value;
      var t := c.htmlToMarkdown(p.body).value;
      Step(s, d, mode, c)
        == Persist(Record(s.(progress := s.progress + 1), d.url, t.unhandled), d.path,
                   c.withFrontMatter(p.frontmatter, t.markdown), mode)
  {
  }

  /** A step over an HTML document that a collaborator fails on stops the
      pass with that collaborator's error. */
  lemma StepFailed(s: PassState, d: Document, mode: Mode, c: Collaborators)
    requires s.abort.None? && !d.isMarkdown
    requires ConvertHtmlDocument(c, d).Failure?
    ensures Step(s, d, mode, c)
         == s.(progress := s.progress + 1, abort := Some(CollaboratorError(ConvertHtmlDocument(c, d).error)))
  {
  }

  // ---------------------------------------------------------------------
  // Reference definitions

  /** The number of unhandled labels a document contributes. */
  function UnhandledCount(c: Collaborators, d: Document): nat
  {
    if d.isMarkdown then 0
    else match ConvertHtmlDocument(c, d)
      case Success(out) => |out.unhandled|
      case Failure(_) => 0
  }

  function SumUnhandled(c: Collaborators, docs: seq<Document>): nat
  {
    if docs == [] then 0 else UnhandledCount(c, docs[0]) + SumUnhandled(c, docs[1..])
  }

  /** The documents the pass converts. */
  function HtmlDocuments(docs: seq<Document>): seq<Document>
  {
    if docs == [] then []
    else if docs[0].isMarkdown then HtmlDocuments(docs[1..])
    else [docs[0]] + HtmlDocuments(docs[1..])
  }

  /** The paths the pass writes Markdown to. */
  function MarkdownOutputs(docs: seq<Document>): set<string>
  {
    if docs == [] then {}
    else (if docs[0].isMarkdown then {} else {MarkdownPath(docs[0].path)}) + MarkdownOutputs(docs[1..])
  }

  /** The paths of the HTML documents the pass converts. */
  function HtmlSources(docs: seq<Document>): set<string>
  {
    if docs == [] then {}
    else (if docs[0].isMarkdown then {} else {docs[0].path}) + HtmlSources(docs[1..])
  }

  /** The sum of the counts shown in the count lines of a block. */
  function BlockPrinted(b: seq<string>): nat
  {
    if |b| < 2 then 0 else PrintedSum(b[1..|b| - 1])
  }

  /** The sum of the counts shown in the report's blocks. */
  function PrintedTotal(reported: seq<Reported>): nat
  {
    if reported == [] then 0
    else
      var last := reported[|reported| - 1];
      PrintedTotal(reported[..|reported| - 1]) + BlockPrinted(ReportBlock(last.url, last.unhandled))
  }

  /** The report agrees with the running total: the counts shown add up to
      it, it is zero exactly when nothing was reported, and only documents
      with some unhandled label are reported. */
  ghost predicate ReportConsistent(total: nat, reported: seq<Reported>)
  {
    && PrintedTotal(reported) == total
    && (total == 0 <==> reported == [])
    && forall i :: 0 <= i < |reported| ==> |reported[i].unhandled| > 0
  }

  // ---------------------------------------------------------------------
  // Stopping on the first error

  /** After an error, the rest of the documents change nothing. */
  lemma {:induction false} RunAfterAbort(s: PassState, docs: seq<Document>, mode: Mode, c: Collaborators)
    requires s.abort.Some?
    ensures Run(s, docs, mode, c) == s
  {
    if docs != [] {
      RunAfterAbort(Step(s, docs[0], mode, c), docs[1..], mode, c);
    }
  }

  /** Running over the documents from index `i` on is one step over
      document `i`, then running over the ones after it. */
  lemma RunFirst(s: PassState, docs: seq<Document>, i: nat, mode: Mode, c: Collaborators)
    requires i < |docs|
    ensures Run(s, docs[i..], mode, c) == Run(Step(s, docs[i], mode, c), docs[i + 1..], mode, c)
  {
    assert docs[i..][0] == docs[i] && docs[i..][1..] == docs[i + 1..];
  }

  /** Running over two lists one after the other is running over both. */
  lemma {:induction false} RunAppend(s: PassState, a: seq<Document>, b: seq<Document>, mode: Mode, c: Collaborators)
    ensures Run(s, a + b, mode, c) == Run(Run(s, a, mode, c), b, mode, c)
    decreases |a|
  {
    if a != [] {
      assert (a + b)[0] == a[0] && (a + b)[1..] == a[1..] + b;
      RunAppend(Step(s, a[0], mode, c), a[1..], b, mode, c);
    } else {
      assert a + b == b;
    }
  }

  /** An error while processing the documents `a` aborts the whole pass: the
      documents after them are never looked at. */
  lemma AbortStopsPass(s: PassState, a: seq<Document>, b: seq<Document>, mode: Mode, c: Collaborators)
    requires Run(s, a, mode, c).abort.Some?
    ensures Run(s, a + b, mode, c) == Run(s, a, mode, c)
  {
    RunAppend(s, a, b, mode, c);
    RunAfterAbort(Run(s, a, mode, c), b, mode, c);
  }

  /** A pass that ends without error got through every HTML document. */
  lemma {:induction false} CompletedRunConverted(s: PassState, docs: seq<Document>, mode: Mode, c: Collaborators)
    requires Run(s, docs, mode, c).abort.None?
    ensures s.abort.None?
    ensures forall i :: 0 <= i < |docs| && !docs[i].isMarkdown ==> ConvertHtmlDocument(c, docs[i]).Success?
    decreases |docs|
  {
    if s.abort.Some? {
      RunAfterAbort(s, docs, mode, c);
    } else if docs != [] {
      CompletedRunConverted(Step(s, docs[0], mode, c), docs[1..], mode, c);
      forall i | 1 <= i < |docs| && !docs[i].isMarkdown ensures ConvertHtmlDocument(c, docs[i]).Success? {
        assert docs[i] == docs[1..][i - 1];
      }
    }
  }

  // ---------------------------------------------------------------------
  // Progress and skipped documents

  /** The progress bar advances once per document, skipped or not, until the
      pass stops. */
  lemma {:induction false} RunProgress(s: PassState, docs: seq<Document>, mode: Mode, c: Collaborators)
    ensures Run(s, docs, mode, c).progress <= s.progress + |docs|
    ensures Run(s, docs, mode, c).abort.None? ==> Run(s, docs, mode, c).progress == s.progress + |docs|
    decreases |docs|
  {
    if s.abort.Some? {
      RunAfterAbort(s, docs, mode, c);
    } else if docs != [] {
      RunProgress(Step(s, docs[0], mode, c), docs[1..], mode, c);
    }
  }

  /** Where the progress count starts has no effect on anything else. */
  lemma {:induction false} ProgressIrrelevant(s: PassState, p: nat, docs: seq<Document>, mode: Mode, c: Collaborators)
    ensures Run(s.(progress := p), docs, mode, c).(progress := 0) == Run(s, docs, mode, c).(progress := 0)
    decreases |docs|
  {
    if docs != [] {
      var t := Step(s.(progress := p), docs[0], mode, c);
      assert t == Step(s, docs[0], mode, c).(progress := t.progress);
      ProgressIrrelevant(Step(s, docs[0], mode, c), t.progress, docs[1..], mode, c);
    }
  }

  /** Markdown documents do nothing but advance the progress bar: leaving
      them out changes no file, no total, no report line and no error. */
  lemma {:induction false} MarkdownDocumentsSkipped(s: PassState, docs: seq<Document>, mode: Mode, c: Collaborators)
    ensures Run(s, docs, mode, c).(progress := 0) == Run(s, HtmlDocuments(docs), mode, c).(progress := 0)
    decreases |docs|
  {
    if s.abort.Some? {
      RunAfterAbort(s, docs, mode, c);
      RunAfterAbort(s, HtmlDocuments(docs), mode, c);
    } else if docs != [] {
      var d := docs[0];
      if d.isMarkdown {
        assert Step(s, d, mode, c) == s.(progress := s.progress + 1);
        ProgressIrrelevant(s, s.progress + 1, docs[1..], mode, c);
        MarkdownDocumentsSkipped(s, docs[1..], mode, c);
      } else {
        var h := HtmlDocuments(docs);
        assert h[0] == d && h[1..] == HtmlDocuments(docs[1..]);
        MarkdownDocumentsSkipped(Step(s, d, mode, c), docs[1..], mode, c);
      }
    }
  }

  // ---------------------------------------------------------------------
  // The total and the report

  /** A pass that ends without error has counted every unhandled label of
      every HTML document. */
  lemma {:induction false} TotalIsSum(s: PassState, docs: seq<Document>, mode: Mode, c: Collaborators)
    requires Run(s, docs, mode, c).abort.None?
    ensures Run(s, docs, mode, c).total == s.total + SumUnhandled(c, docs)
    decreases |docs|
  {
    CompletedRunConverted(s, docs, mode, c);
    if docs != [] {
      var t := Step(s, docs[0], mode, c);
      TotalIsSum(t, docs[1..], mode, c);
      CompletedRunConverted(t, docs[1..], mode, c);
    }
  }

  lemma {:induction false} SumUnhandledPositive(c: Collaborators, docs: seq<Document>)
    ensures SumUnhandled(c, docs) > 0 <==> exists i :: 0 <= i < |docs| && UnhandledCount(c, docs[i]) > 0
  {
    if docs != [] {
      SumUnhandledPositive(c, docs[1..]);
      if SumUnhandled(c, docs[1..]) > 0 {
        var i :| 0 <= i < |docs| - 1 && UnhandledCount(c, docs[1..][i]) > 0;
        assert UnhandledCount(c, docs[i + 1]) > 0;
      }
      if exists i :: 0 <= i < |docs| && UnhandledCount(c, docs[i]) > 0 {
        var i :| 0 <= i < |docs| && UnhandledCount(c, docs[i]) > 0;
        if i > 0 {
          assert docs[1..][i - 1] == docs[i];
        }
      }
    }
  }

  /** The mode policy touches neither the total nor the report. */
  lemma PersistKeepsReport(s: PassState, path: string, content: string, mode: Mode)
    ensures Persist(s, path, content, mode).total == s.total
    ensures Persist(s, path, content, mode).reported == s.reported
  {
  }

  /** Recording a document's labels keeps the report consistent with the
      total. */
  lemma RecordKeepsReportConsistent(s: PassState, url: string, u: seq<string>)
    requires ReportConsistent(s.total, s.reported)
    ensures ReportConsistent(Record(s, url, u).total, Record(s, url, u).reported)
  {
    if |u| > 0 {
      var reported := s.reported + [Reported(url, u)];
      PrintedTotalSnoc(s.reported, Reported(url, u));
      forall i | 0 <= i < |reported| ensures |reported[i].unhandled| > 0 {
        if i < |s.reported| {
          assert reported[i] == s.reported[i];
        }
      }
    }
  }

  /** One step keeps the report consistent with the total. */
  lemma StepKeepsReportConsistent(s: PassState, d: Document, mode: Mode, c: Collaborators)
    requires ReportConsistent(s.total, s.reported)
    ensures ReportConsistent(Step(s, d, mode, c).total, Step(s, d, mode, c).reported)
  {
    var advanced := s.(progress := s.progress + 1);
    var t := Step(s, d, mode, c);
    if s.abort.None? && !d.isMarkdown && ConvertHtmlDocument(c, d).Success? {
      var out := ConvertHtmlDocument(c, d).value;
      var r := Record(advanced, d.url, out.unhandled);
      RecordKeepsReportConsistent(advanced, d.url, out.unhandled);
      PersistKeepsReport(r, d.path, out.content, mode);
      assert t.total == r.total && t.reported == r.reported;
    } else {
      assert t.total == s.total && t.reported == s.reported;
    }
  }

  /** The whole pass keeps the report consistent with the total. */
  lemma {:induction false} RunKeepsReportConsistent(s: PassState, docs: seq<Document>, mode: Mode, c: Collaborators)
    requires ReportConsistent(s.total, s.reported)
    ensures ReportConsistent(Run(s, docs, mode, c).total, Run(s, docs, mode, c).reported)
    decreases |docs|
  {
    if docs != [] {
      StepKeepsReportConsistent(s, docs[0], mode, c);
      RunKeepsReportConsistent(Step(s, docs[0], mode, c), docs[1..], mode, c);
    }
  }

  /** Reporting one more document appends its block to the report lines. */
  lemma ReportLinesSnoc(reported: seq<Reported>, r: Reported)
    ensures ReportLines(reported + [r]) == ReportLines(reported) + ReportBlock(r.url, r.unhandled)
  {
    assert (reported + [r])[..|reported|] == reported;
  }

  /** Reporting one more document adds its number of unhandled labels to
      the counts shown. */
  lemma PrintedTotalSnoc(reported: seq<Reported>, r: Reported)
    ensures PrintedTotal(reported + [r]) == PrintedTotal(reported) + |r.unhandled|
  {
    assert (reported + [r])[..|reported|] == reported;
    ReportBlockPrintedSum(r.url, r.unhandled);
  }

  /** The report has lines exactly when some document was reported. */
  lemma ReportLinesEmpty(reported: seq<Reported>)
    ensures ReportLines(reported) == [] <==> reported == []
  {
    if reported != [] {
      var last := reported[|reported| - 1];
      ReportBlockLines(last.url, last.unhandled);
    }
  }

  /** After the pass, the counts shown in the report add up to
      `totalUnhandledCount`, and the report has lines exactly when the total
      is non-zero. When the pass ended without error, the total is the number
      of unhandled labels over all HTML documents, so it is non-zero exactly
      when some HTML document had an unhandled label. */
  lemma ReportMatchesTotal(files: map<string, string>, docs: seq<Document>, mode: Mode, c: Collaborators)
    ensures var s := Run(Start(files), docs, mode, c);
      && PrintedTotal(s.reported) == s.total
      && (s.total > 0 <==> ReportLines(s.reported) != [])
    ensures var s := Run(Start(files), docs, mode, c);
      s.abort.None? ==>
        && s.total == SumUnhandled(c, docs)
        && (s.total > 0 <==> exists i :: 0 <= i < |docs| && UnhandledCount(c, docs[i]) > 0)
  {
    var s := Run(Start(files), docs, mode, c);
    RunKeepsReportConsistent(Start(files), docs, mode, c);
    ReportLinesEmpty(s.reported);
    if s.abort.None? {
      TotalIsSum(Start(files), docs, mode, c);
      SumUnhandledPositive(c, docs);
    }
  }

  /** The report file is written only when the pass ended without error
      and the total is non-zero. */
  lemma NoReportWithoutUnhandled(files: map<string, string>, docs: seq<Document>, mode: Mode,
                                 c: Collaborators, reportName: string)
    requires Run(Start(files), docs, mode, c).abort.Some? || Run(Start(files), docs, mode, c).total == 0
    ensures Action(files, docs, mode, c, reportName) == Run(Start(files), docs, mode, c)
    ensures ReportLines(Run(Start(files), docs, mode, c).reported) == [] || Run(Start(files), docs, mode, c).abort.Some?
  {
    ReportMatchesTotal(files, docs, mode, c);
  }

  /** When the pass ended without error and the total is non-zero, the report
      file holds the non-empty report lines joined by line feeds, and no
      other file differs from the pass's result. */
  lemma ReportFileHoldsReport(files: map<string, string>, docs: seq<Document>, mode: Mode,
                              c: Collaborators, reportName: string)
    requires Run(Start(files), docs, mode, c).abort.None? && Run(Start(files), docs, mode, c).total > 0
    ensures var s := Run(Start(files), docs, mode, c);
      var a := Action(files, docs, mode, c, reportName).files;
      && ReportLines(s.reported) != []
      && reportName in a && a[reportName] == Join(ReportLines(s.reported), "\n")
      && a - {reportName} == s.files - {reportName}
  {
    ReportMatchesTotal(files, docs, mode, c);
    FinishWritesReport(Run(Start(files), docs, mode, c), reportName);
  }

  lemma FinishWritesReport(s: PassState, reportName: string)
    requires s.abort.None? && s.total > 0
    ensures var a := Finish(s, reportName).files;
      && reportName in a && a[reportName] == Join(ReportLines(s.reported), "\n")
      && a - {reportName} == s.files - {reportName}
  {
    var a := Finish(s, reportName).files;
    assert a == s.files[reportName := ReportText(s)];
    assert a - {reportName} == s.files - {reportName};
  }

  /** When no report line holds a line feed, splitting the report file at
      line feeds gives the report lines back. */
  lemma ReportFileSplits(files: map<string, string>, docs: seq<Document>, mode: Mode,
                         c: Collaborators, reportName: string)
    requires Run(Start(files), docs, mode, c).abort.None? && Run(Start(files), docs, mode, c).total > 0
    requires var lines := ReportLines(Run(Start(files), docs, mode, c).reported);
      forall i :: 0 <= i < |lines| ==> NoLineFeed(lines[i])
    ensures var lines := ReportLines(Run(Start(files), docs, mode, c).reported);
      SplitLines(Action(files, docs, mode, c, reportName).files[reportName]) == lines
  {
    ReportFileHoldsReport(files, docs, mode, c, reportName);
    SplitJoin(ReportLines(Run(Start(files), docs, mode, c).reported));
  }

  // ---------------------------------------------------------------------
  // The mode policy

  /** In `dry` mode the pass changes no file. */
  lemma {:induction false} DryChangesNoFile(s: PassState, docs: seq<Document>, c: Collaborators)
    ensures Run(s, docs, Dry, c).files == s.files
    decreases |docs|
  {
    if docs != [] {
      DryChangesNoFile(Step(s, docs[0], Dry, c), docs[1..], c);
    }
  }

  /** In `dry` mode the action's only possible write is the report file,
      and it writes nothing at all when no label went unhandled. */
  lemma DryActionWritesOnlyReport(files: map<string, string>, docs: seq<Document>, c: Collaborators,
                                  reportName: string)
    ensures Action(files, docs, Dry, c, reportName).files - {reportName} == files - {reportName}
    ensures Action(files, docs, Dry, c, reportName).total == 0 ==> Action(files, docs, Dry, c, reportName).files == files
  {
    DryChangesNoFile(Start(files), docs, c);
  }

  /** In `keep` mode no file is ever removed. */
  lemma {:induction false} KeepRemovesNothing(s: PassState, docs: seq<Document>, c: Collaborators)
    ensures s.files.Keys <= Run(s, docs, Keep, c).files.Keys
    decreases |docs|
  {
    if docs != [] {
      KeepRemovesNothing(Step(s, docs[0], Keep, c), docs[1..], c);
    }
  }

  /** A `keep` pass that ends without error adds exactly the Markdown paths
      of the HTML documents and leaves every other file as it was. */
  lemma {:induction false} KeepEffect(s: PassState, docs: seq<Document>, c: Collaborators)
    requires Run(s, docs, Keep, c).abort.None?
    ensures Run(s, docs, Keep, c).files.Keys == s.files.Keys + MarkdownOutputs(docs)
    ensures forall p :: p in s.files && p !in MarkdownOutputs(docs) ==> Run(s, docs, Keep, c).files[p] == s.files[p]
    decreases |docs|
  {
    CompletedRunConverted(s, docs, Keep, c);
    if docs != [] {
      KeepEffect(Step(s, docs[0], Keep, c), docs[1..], c);
    }
  }

  lemma {:induction false} MarkdownOutputsFrom(docs: seq<Document>, p: string)
    requires p in MarkdownOutputs(docs)
    ensures exists j :: 0 <= j < |docs| && !docs[j].isMarkdown && MarkdownPath(docs[j].path) == p
  {
    if !(!docs[0].isMarkdown && MarkdownPath(docs[0].path) == p) {
      MarkdownOutputsFrom(docs[1..], p);
      var j :| 0 <= j < |docs| - 1 && !docs[1..][j].isMarkdown && MarkdownPath(docs[1..][j].path) == p;
      assert docs[j + 1] == docs[1..][j];
    }
  }

  /** In a `keep` pass that ends without error, when no two HTML documents
      share a Markdown path, each Markdown path holds that document's
      converted text. */
  lemma {:induction false} KeepWritesConversions(s: PassState, docs: seq<Document>, c: Collaborators)
    requires Run(s, docs, Keep, c).abort.None?
    requires forall i, j :: 0 <= i < j < |docs| && !docs[i].isMarkdown && !docs[j].isMarkdown ==>
      MarkdownPath(docs[i].path) != MarkdownPath(docs[j].path)
    ensures forall i :: 0 <= i < |docs| && !docs[i].isMarkdown ==>
      && ConvertHtmlDocument(c, docs[i]).Success?
      && MarkdownPath(docs[i].path) in Run(s, docs, Keep, c).files
      && Run(s, docs, Keep, c).files[MarkdownPath(docs[i].path)] == ConvertHtmlDocument(c, docs[i]).value.content
    decreases |docs|
  {
    CompletedRunConverted(s, docs, Keep, c);
    if docs != [] {
      var t := Step(s, docs[0], Keep, c);
      var rest := docs[1..];
      KeepWritesConversions(t, rest, c);
      KeepEffect(t, rest, c);
      var fin := Run(s, docs, Keep, c).files;
      forall i | 0 <= i < |docs| && !docs[i].isMarkdown
        ensures MarkdownPath(docs[i].path) in fin
        ensures fin[MarkdownPath(docs[i].path)] == ConvertHtmlDocument(c, docs[i]).value.content
      {
        if i == 0 {
          var p := MarkdownPath(docs[0].path);
          if p in MarkdownOutputs(rest) {
            MarkdownOutputsFrom(rest, p);
          }
        } else {
          assert docs[i] == rest[i - 1];
        }
      }
    }
  }

  /** In `replace` mode, a document whose path does not end in ".html" is
      written to its own path and then unlinked: its converted text is lost
      and the pass carries on. */
  lemma ReplaceWithoutHtmlSuffix(s: PassState, d: Document, c: Collaborators)
    requires s.abort.None? && !d.isMarkdown && !EndsWith(d.path, ".html")
    requires ConvertHtmlDocument(c, d).Success?
    ensures Step(s, d, Replace, c).abort.None?
    ensures Step(s, d, Replace, c).files == s.files - {d.path}
  {
  }

  lemma {:induction false} SourcesAreHtml(docs: seq<Document>)
    requires forall i :: 0 <= i < |docs| && !docs[i].isMarkdown ==> EndsWith(docs[i].path, ".html")
    ensures forall p :: p in HtmlSources(docs) ==> EndsWith(p, ".html")
  {
    if docs != [] {
      forall i | 0 <= i < |docs| - 1 && !docs[1..][i].isMarkdown ensures EndsWith(docs[1..][i].path, ".html") {
        assert docs[1..][i] == docs[i + 1];
      }
      SourcesAreHtml(docs[1..]);
    }
  }

  lemma {:induction false} OutputsAreNotHtml(docs: seq<Document>)
    requires forall i :: 0 <= i < |docs| && !docs[i].isMarkdown ==> EndsWith(docs[i].path, ".html")
    ensures forall p :: p in MarkdownOutputs(docs) ==> !EndsWith(p, ".html")
  {
    forall p | p in MarkdownOutputs(docs) ensures !EndsWith(p, ".html") {
      MarkdownOutputsFrom(docs, p);
      var j :| 0 <= j < |docs| && !docs[j].isMarkdown && MarkdownPath(docs[j].path) == p;
      MarkdownPathIsNotHtml(docs[j].path);
    }
  }

  /** A `replace` pass that ends without error, over HTML documents whose
      paths end in ".html", leaves the original files plus the Markdown
      paths minus the HTML sources: every Markdown file exists and no HTML
      source does. */
  lemma {:induction false} ReplaceEffect(s: PassState, docs: seq<Document>, c: Collaborators)
    requires Run(s, docs, Replace, c).abort.None?
    requires forall i :: 0 <= i < |docs| && !docs[i].isMarkdown ==> EndsWith(docs[i].path, ".html")
    ensures Run(s, docs, Replace, c).files.Keys == (s.files.Keys + MarkdownOutputs(docs)) - HtmlSources(docs)
    ensures MarkdownOutputs(docs) <= Run(s, docs, Replace, c).files.Keys
    ensures HtmlSources(docs) !! Run(s, docs, Replace, c).files.Keys
    decreases |docs|
  {
    CompletedRunConverted(s, docs, Replace, c);
    OutputsAreNotHtml(docs);
    SourcesAreHtml(docs);
    if docs != [] {
      var t := Step(s, docs[0], Replace, c);
      var rest := docs[1..];
      forall i | 0 <= i < |rest| && !rest[i].isMarkdown ensures EndsWith(rest[i].path, ".html") {
        assert rest[i] == docs[i + 1];
      }
      ReplaceEffect(t, rest, c);
      OutputsAreNotHtml(rest);
      if !docs[0].isMarkdown {
        MarkdownPathIsNotHtml(docs[0].path);
        assert docs[0].path !in MarkdownOutputs(rest);
      }
    }
  }

  /** A `replace` pass that ends without error leaves every file that is
      neither a Markdown output nor an HTML source with its old contents. */
  lemma {:induction false} ReplaceKeepsOthers(s: PassState, docs: seq<Document>, c: Collaborators)
    requires Run(s, docs, Replace, c).abort.None?
    ensures forall p :: p in s.files && p !in MarkdownOutputs(docs) && p !in HtmlSources(docs) ==>
      p in Run(s, docs, Replace, c).files && Run(s, docs, Replace, c).files[p] == s.files[p]
    decreases |docs|
  {
    CompletedRunConverted(s, docs, Replace, c);
    if docs != [] {
      ReplaceKeepsOthers(Step(s, docs[0], Replace, c), docs[1..], c);
    }
  }

  /** In a `replace` pass that ends without error, over paths ending in
      ".html" and with no two HTML documents sharing a Markdown path, each
      Markdown path holds that document's converted text. */
  lemma {:induction false} ReplaceWritesConversions(s: PassState, docs: seq<Document>, c: Collaborators)
    requires Run(s, docs, Replace, c).abort.None?
    requires forall i :: 0 <= i < |docs| && !docs[i].isMarkdown ==> EndsWith(docs[i].path, ".html")
    requires forall i, j :: 0 <= i < j < |docs| && !docs[i].isMarkdown && !docs[j].isMarkdown ==>
      MarkdownPath(docs[i].path) != MarkdownPath(docs[j].path)
    ensures forall i :: 0 <= i < |docs| && !docs[i].isMarkdown ==>
      && ConvertHtmlDocument(c, docs[i]).Success?
      && MarkdownPath(docs[i].path) in Run(s, docs, Replace, c).files
      && Run(s, docs, Replace, c).files[MarkdownPath(docs[i].path)] == ConvertHtmlDocument(c, docs[i]).value.content
    decreases |docs|
  {
    CompletedRunConverted(s, docs, Replace, c);
    if docs != [] {
      var t := Step(s, docs[0], Replace, c);
      var rest := docs[1..];
      forall i | 0 <= i < |rest| && !rest[i].isMarkdown ensures EndsWith(rest[i].path, ".html") {
        assert rest[i] == docs[i + 1];
      }
      ReplaceWritesConversions(t, rest, c);
      if !docs[0].isMarkdown {
        var p := MarkdownPath(docs[0].path);
        MarkdownPathIsNotHtml(docs[0].path);
        assert p in t.files && t.files[p] == ConvertHtmlDocument(c, docs[0]).value.content;
        forall j | 0 <= j < |rest| && !rest[j].isMarkdown ensures MarkdownPath(rest[j].path) != p {
          assert rest[j] == docs[j + 1];
        }
        if p in MarkdownOutputs(rest) {
          MarkdownOutputsFrom(rest, p);
        }
        SourcesAreHtml(rest);
        ReplaceKeepsOthers(t, rest, c);
      }
      forall i | 1 <= i < |docs| && !docs[i].isMarkdown
        ensures MarkdownPath(docs[i].path) in Run(s, docs, Replace, c).files
        ensures Run(s, docs, Replace, c).files[MarkdownPath(docs[i].path)] == ConvertHtmlDocument(c, docs[i]).value.content
      {
        assert docs[i] == rest[i - 1];
      }
    }
  }
}
