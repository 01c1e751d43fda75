/** The `m2h` action of markdown/cli.ts as a function of its inputs: one
    sequential pass that skips documents not in Markdown and writes, for
    each Markdown document, its HTML rendering next to it. It has no mode,
    deletes nothing and keeps no report. */
module MarkdownToHtml {
  import opened Wrappers
  import opened Paths
  import opened Documents

  /** The file map, and whether the pass stopped on an error. */
  datatype PassState = PassState(files: map<string, string>, abort: Option<Abort>)

  function Start(files: map<string, string>): PassState
  {
    PassState(files, None)
  }

  /** One iteration of the loop: skip a document that is not Markdown,
      otherwise convert it and write the HTML path. */
  function Step(s: PassState, d: Document, c: Collaborators): PassState
  {
    if s.abort.Some? || !d.isMarkdown then s
    else
      match ConvertMarkdownDocument(c, d)
      case Failure(e) => s.(abort := Some(CollaboratorError(e)))
      case Success(content) => s.(files := s.files[HtmlPath(d.path) := content])
  }

  /** The loop over all documents, in order. */
  function Run(s: PassState, docs: seq<Document>, c: Collaborators): PassState
    decreases |docs|
  {
    if docs == [] then s else Run(Step(s, docs[0], c), docs[1..], c)
  }

  /** The documents the pass converts. */
  function MarkdownDocuments(docs: seq<Document>): seq<Document>
  {
    if docs == [] then []
    else if docs[0].isMarkdown then [docs[0]] + MarkdownDocuments(docs[1..])
    else MarkdownDocuments(docs[1..])
  }

  /** The paths the pass writes HTML to. */
  function HtmlOutputs(docs: seq<Document>): set<string>
  {
    if docs == [] then {}
    else (if docs[0].isMarkdown then {HtmlPath(docs[0].path)} else {}) + HtmlOutputs(docs[1..])
  }

  /** After an error, the rest of the documents change nothing. */
  lemma {:induction false} RunAfterAbort(s: PassState, docs: seq<Document>, c: Collaborators)
    requires s.abort.Some?
    ensures Run(s, docs, c) == s
    decreases |docs|
  {
    if docs != [] {
      RunAfterAbort(Step(s, docs[0], c), docs[1..], c);
    }
  }

  /** Running over two lists one after the other is running over both. */
  lemma {:induction false} RunAppend(s: PassState, a: seq<Document>, b: seq<Document>, c: Collaborators)
    ensures Run(s, a + b, c) == Run(Run(s, a, c), b, c)
    decreases |a|
  {
    if a != [] {
      assert (a + b)[0] == a[0] && (a + b)[1..] == a[1..] + b;
      RunAppend(Step(s, a[0], c), a[1..], b, c);
    } else {
      assert a + b == b;
    }
  }

  /** An error while processing the documents `a` aborts the whole pass: the
      documents after them are never looked at. */
  lemma AbortStopsPass(s: PassState, a: seq<Document>, b: seq<Document>, c: Collaborators)
    requires Run(s, a, c).abort.Some?
    ensures Run(s, a + b, c) == Run(s, a, c)
  {
    RunAppend(s, a, b, c);
    RunAfterAbort(Run(s, a, c), b, c);
  }

  /** A pass that ends without error converted every Markdown document. */
  lemma {:induction false} CompletedRunConverted(s: PassState, docs: seq<Document>, c: Collaborators)
    requires Run(s, docs, c).abort.None?
    ensures s.abort.None?
    ensures forall i :: 0 <= i < |docs| && docs[i].isMarkdown ==> ConvertMarkdownDocument(c, docs[i]).Success?
    decreases |docs|
  {
    if s.abort.Some? {
      RunAfterAbort(s, docs, c);
    } else if docs != [] {
      CompletedRunConverted(Step(s, docs[0], c), docs[1..], c);
      forall i | 1 <= i < |docs| && docs[i].isMarkdown ensures ConvertMarkdownDocument(c, docs[i]).Success? {
        assert docs[i] == docs[1..][i - 1];
      }
    }
  }

  /** Documents that are not Markdown are skipped: leaving them out changes
      nothing. */
  lemma {:induction false} HtmlDocumentsSkipped(s: PassState, docs: seq<Document>, c: Collaborators)
    ensures Run(s, docs, c) == Run(s, MarkdownDocuments(docs), c)
    decreases |docs|
  {
    if s.abort.Some? {
      RunAfterAbort(s, docs, c);
      RunAfterAbort(s, MarkdownDocuments(docs), c);
    } else if docs != [] {
      if docs[0].isMarkdown {
        var m := MarkdownDocuments(docs);
        assert m[0] == docs[0] && m[1..] == MarkdownDocuments(docs[1..]);
      }
      HtmlDocumentsSkipped(Step(s, docs[0], c), docs[1..], c);
    }
  }

  /** The pass never removes a file, whether or not it stops on an error. */
  lemma {:induction false} RemovesNothing(s: PassState, docs: seq<Document>, c: Collaborators)
    ensures s.files.Keys <= Run(s, docs, c).files.Keys
    decreases |docs|
  {
    if docs != [] {
      RemovesNothing(Step(s, docs[0], c), docs[1..], c);
    }
  }

  /** A pass that ends without error adds exactly the HTML paths of the
      Markdown documents and leaves every other file as it was. */
  lemma {:induction false} PassEffect(s: PassState, docs: seq<Document>, c: Collaborators)
    requires Run(s, docs, c).abort.None?
    ensures Run(s, docs, c).files.Keys == s.files.Keys + HtmlOutputs(docs)
    ensures forall p :: p in s.files && p !in HtmlOutputs(docs) ==> Run(s, docs, c).files[p] == s.files[p]
    decreases |docs|
  {
    CompletedRunConverted(s, docs, c);
    if docs != [] {
      PassEffect(Step(s, docs[0], c), docs[1..], c);
    }
  }

  lemma {:induction false} HtmlOutputsFrom(docs: seq<Document>, p: string)
    requires p in HtmlOutputs(docs)
    ensures exists j :: 0 <= j < |docs| && docs[j].isMarkdown && HtmlPath(docs[j].path) == p
  {
    if !(docs[0].isMarkdown && HtmlPath(docs[0].path) == p) {
      HtmlOutputsFrom(docs[1..], p);
      var j :| 0 <= j < |docs| - 1 && docs[1..][j].isMarkdown && HtmlPath(docs[1..][j].path) == p;
      assert docs[j + 1] == docs[1..][j];
    }
  }

  /** In a pass that ends without error, when no two Markdown documents share
      an HTML path, each HTML path holds that document's converted text. */
  lemma {:induction false} WritesConversions(s: PassState, docs: seq<Document>, c: Collaborators)
    requires Run(s, docs, c).abort.None?
    requires forall i, j :: 0 <= i < j < |docs| && docs[i].isMarkdown && docs[j].isMarkdown ==>
      HtmlPath(docs[i].path) != HtmlPath(docs[j].path)
    ensures forall i :: 0 <= i < |docs| && docs[i].isMarkdown ==>
      && ConvertMarkdownDocument(c, docs[i]).Success?
      && HtmlPath(docs[i].path) in Run(s, docs, c).files
      && Run(s, docs, c).files[HtmlPath(docs[i].path)] == ConvertMarkdownDocument(c, docs[i]).value
    decreases |docs|
  {
    CompletedRunConverted(s, docs, c);
    if docs != [] {
      var t := Step(s, docs[0], c);
      var rest := docs[1..];
      WritesConversions(t, rest, c);
      PassEffect(t, rest, c);
      var fin := Run(s, docs, c).files;
      forall i | 0 <= i < |docs| && docs[i].isMarkdown
        ensures HtmlPath(docs[i].path) in fin
        ensures fin[HtmlPath(docs[i].path)] == ConvertMarkdownDocument(c, docs[i]).value
      {
        if i == 0 {
          var p := HtmlPath(docs[0].path);
          if p in HtmlOutputs(rest) {
            HtmlOutputsFrom(rest, p);
          }
        } else {
          assert docs[i] == rest[i - 1];
        }
      }
    }
  }
}
