# Markdown conversion command line, modelled in Dafny

`markdown/cli.ts` is the `yarn md` command line of the content repository.
It has two actions over the repository's documents:

- `h2m` converts HTML documents to Markdown. It walks every document once
  and skips the Markdown ones. For each HTML document it splits off the
  front matter, converts the body and collects the labels of elements the
  converter could not handle. It counts those labels per document
  (`toCountMap`) and appends a report block: the document id, one
  `"<label> (<count>)"` line per distinct label by non-increasing count,
  and an empty line. It keeps a running total of the labels. Then it
  applies the `--mode` policy:
  - `dry` writes nothing;
  - `keep` writes the Markdown file beside the HTML one;
  - `replace` writes it and then deletes the HTML file.

  After the loop, if the total is non-zero, it writes the report lines,
  joined by line feeds, to a report file.
- `m2h` converts Markdown documents back to HTML. It walks every document
  once, skips those that are not Markdown, and writes each converted
  document to the same path with `.md` replaced by `.html`. It deletes
  nothing and writes no report.

The model has two layers.

- A value layer states what each action does as a function of its inputs:
  - `HtmlToMarkdown.Step`, `HtmlToMarkdown.Run`, `HtmlToMarkdown.Action`;
  - `MarkdownToHtml.Step`, `MarkdownToHtml.Run`.

  The properties of the actions are proved as lemmas about these functions.
- An imperative layer (`Cli`) follows the source loop by loop. A
  `FileSystem` object holds the file map and is written and unlinked in
  place. `toCountMap` is a loop that fills a map. The `h2m` loop keeps a
  running total, a growing sequence of report lines and a progress count.
  Each method is proved to end in the state the value layer describes.

The collaborators the actions call are not part of this model. These are:
- the `front-matter` parser `fm` and its inverse `withFm`;
- the conversion engines `h2m` and `m2h`;
- the document source `Document.findAll`.

Each collaborator is a function value in a `Collaborators` record, and the
documents are a sequence given as input. A collaborator that can throw
returns a `Result`. An exception ends the action: `tryOrExit` rethrows it.
The model records the error in the pass state and processes no later
document.

The sort comparator `(c1 > c2 ? -1 : 1)` never returns 0. It answers `1`
for equal counts in both argument orders, so the source fixes no order
among labels with equal counts. The model sorts with an insertion sort
driven by this comparator. Its contracts promise only what the source
does: the result is a permutation of the counted entries, ordered by
non-increasing count.

Two behaviours of the code are worth knowing.

- The `dry` mode is usually described as changing nothing. In the code it
  still writes the report file when some label went unhandled: the report
  write at markdown/cli.ts:98-104 does not look at the mode. The model
  follows the code; `HtmlToMarkdown.DryActionWritesOnlyReport` states
  exactly what `dry` changes.
- The path rewrite only replaces a trailing `.html`. In `replace` mode, an
  HTML document whose path does not end in `.html` is written to its own
  path and then unlinked, so its converted text is lost.
  `HtmlToMarkdown.ReplaceWithoutHtmlSuffix` states this.

## Model

| member | source | states |
|---|---|---|
| Aggregator.Occurrences | markdown/cli.ts:29-38 | the count of a label is at most the list length, and is positive exactly when the label occurs |
| Aggregator.Distinct | markdown/cli.ts:29-38 | the keys of the count map, in insertion order, have no duplicates and are exactly the labels of the input |
| Aggregator.EntriesFor | markdown/cli.ts:80 | the entries pair each key, in order, with its number of occurrences |
| Aggregator.FromCountMap | markdown/cli.ts:80 | `Array.from(countMap)` has one entry per key of the map's insertion order |
| Aggregator.CountEntries | markdown/cli.ts:29-38 | the reference for `Array.from(toCountMap(s))`: each distinct label in first-seen order with its number of occurrences; `Aggregator.ToCountMap` is proved to produce it and `Aggregator.CountEntriesSum` to add up to `|s|` |
| Aggregator.ToCountMap | markdown/cli.ts:29-38 | the map's keys are exactly the input's labels, each count is that label's number of occurrences, and the insertion order is first-seen order, so `Array.from` of it is the counted entries |
| Aggregator.CountEntriesSum | markdown/cli.ts:29-38 | the counts of `toCountMap(s)` add up to the length of `s` |
| Aggregator.CompareByCount | markdown/cli.ts:81 | the comparator `c1 > c2 ? -1 : 1`, which never answers 0 and answers `1` for equal counts in both orders; what sorting with it guarantees is stated by `Aggregator.SortByCountOrdered` and `Aggregator.SortByCount` |
| Aggregator.InsertByCount | markdown/cli.ts:81 | inserting by the comparator adds exactly the new entry to the multiset of entries |
| Aggregator.SortByCount | markdown/cli.ts:81 | sorting by the comparator is a permutation of its input |
| Aggregator.SortByCountOrdered | markdown/cli.ts:81 | the sorted entries have non-increasing counts |
| Aggregator.SortByCountSum | markdown/cli.ts:81 | sorting keeps the sum of the counts |
| Aggregator.SortByCountNoDup | markdown/cli.ts:81 | sorting entries without duplicates gives entries without duplicates |
| Aggregator.FormatLine | markdown/cli.ts:82 | the line `${key} (${count})`; `Aggregator.ParseFormatLine` proves that it reads back as its label and count |
| Aggregator.FormatLines | markdown/cli.ts:82 | one report line per entry |
| Aggregator.ParseFormatLine | markdown/cli.ts:82 | a line `"<label> (<count>)"` reads back as its label and count, whatever characters the label holds |
| Aggregator.PrintedSumOfFormatted | markdown/cli.ts:82 | the counts shown by the formatted lines add up to the entries' total |
| Aggregator.ReportBlock | markdown/cli.ts:78-84 | the lines pushed for one document; their meaning is stated by `Aggregator.ReportBlockMeaning` and `Aggregator.ReportBlockPrintedSum`, and `Cli.ReportBlockFor` is proved to build them |
| Aggregator.SortedCountsMeaning | markdown/cli.ts:80-82 | the sorted entries list every distinct label exactly once with its number of occurrences, by non-increasing count, and their counts add up to the number of labels |
| Aggregator.ReportBlockLines | markdown/cli.ts:78-84 | a report block is the document id, one line per sorted entry that reads back as that entry, and an empty line |
| Aggregator.ReportBlockMeaning | markdown/cli.ts:78-84 | read back, a block is the id, then one line per distinct unhandled label with its number of occurrences, all labels distinct, counts non-increasing down the block, every label present, then `""` |
| Aggregator.ReadBackBlock | markdown/cli.ts:78-84 | a block formatted from entries that count the labels once each, by non-increasing count, reads back with the same properties |
| Aggregator.ReportBlockPrintedSum | markdown/cli.ts:76-84 | the counts shown in a document's block add up to its number of unhandled labels |
| Decimal.NatToDecimal | markdown/cli.ts:82 | the rendered count is a non-empty digit string with no leading zero unless it is `"0"` |
| Decimal.DecimalRoundTrip | markdown/cli.ts:82 | reading back the rendered count gives the count |
| Paths.ReplaceSuffix | markdown/cli.ts:88 | a path ending in the suffix gets the replacement in place of the suffix and keeps its stem; any other path comes back unchanged |
| Paths.MarkdownPath | markdown/cli.ts:88 | the `h2m` output path `path.replace(/\.html$/, ".md")`; `Paths.ReplaceSuffix` states what it does and `Paths.HtmlPathRoundTrip` that `Paths.HtmlPath` undoes it |
| Paths.HtmlPath | markdown/cli.ts:120 | the `m2h` output path `path.replace(/\.md$/, ".html")`; `Paths.MarkdownPathRoundTrip` proves that `Paths.MarkdownPath` undoes it |
| Paths.HtmlPathRoundTrip | markdown/cli.ts:120 | the `.md`→`.html` rewrite undoes the `.html`→`.md` rewrite on a path ending in `.html` |
| Paths.MarkdownPathRoundTrip | markdown/cli.ts:88 | the `.html`→`.md` rewrite undoes the `.md`→`.html` rewrite on a path ending in `.md` |
| Paths.ReplaceSuffixInjective | markdown/cli.ts:88 | two different paths with the suffix are never rewritten to the same path |
| Paths.MarkdownPathIsNotHtml | markdown/cli.ts:88 | the Markdown path of an HTML path never ends in `.html` |
| Lines.Join | markdown/cli.ts:103 | `unhandledReportLines.join("\n")`; `Lines.SplitJoin` proves that splitting at line feeds gives the lines back |
| Lines.SplitLines | markdown/cli.ts:103 | not an operation of the source, which only joins: the reader-side `split("\n")` that `Lines.SplitJoin` proves to be the inverse of the join; its own contract says only that there is always at least one piece |
| Lines.SplitJoin | markdown/cli.ts:103 | lines without line feeds, joined with `"\n"`, split back into the same lines |
| Documents.ConvertHtmlDocument | markdown/cli.ts:74-90 | `fm`, `h2m` and `withFm` for one HTML document, failing with the first collaborator error; `Documents.HtmlConversionKeepsFrontMatter` states what the written text holds |
| Documents.ConvertMarkdownDocument | markdown/cli.ts:117-121 | `fm`, `m2h` and `withFm` for one Markdown document; `Documents.MarkdownConversionKeepsFrontMatter` states what the written text holds |
| Documents.HtmlConversionKeepsFrontMatter | markdown/cli.ts:74-90 | when `withFm` keeps front matter that `fm` split off (`FrontMatterKept`), a converted HTML document parses again and carries the original front matter; when also `BodyKept`, its body is the engine's Markdown |
| Documents.MarkdownConversionKeepsFrontMatter | markdown/cli.ts:117-121 | under `FrontMatterKept`, a converted Markdown document parses again and carries the original front matter; when also `BodyKept`, its body is the engine's HTML |
| Documents.LawsAdmitRejectingParser | markdown/cli.ts:74 | the codec laws hold for a parser that rejects some texts, as `fm` throws on a block it cannot parse, so the two lemmas above apply to such codecs |
| HtmlToMarkdown.ReportLines | markdown/cli.ts:68-84 | `unhandledReportLines`: the blocks of the reported documents in order; `HtmlToMarkdown.ReportLinesEmpty` and `HtmlToMarkdown.ReportMatchesTotal` state what it holds |
| HtmlToMarkdown.Record | markdown/cli.ts:76-85 | counting and reporting one document's labels; `HtmlToMarkdown.RecordKeepsReportConsistent` and `HtmlToMarkdown.PrintedTotalSnoc` state its effect on the report and total |
| HtmlToMarkdown.Persist | markdown/cli.ts:86-94 | the mode policy for one converted document; its effect over a whole pass is stated by the `Dry…`, `Keep…` and `Replace…` lemmas below |
| HtmlToMarkdown.Step | markdown/cli.ts:69-94 | one iteration of the `h2m` loop; `HtmlToMarkdown.StepKeepsReportConsistent` states the invariant it keeps, and `Cli.HtmlToMarkdownDocument` is proved to end in its state |
| HtmlToMarkdown.Run | markdown/cli.ts:67-95 | the `h2m` loop over all documents; the lemmas below state its properties, and `Cli.HtmlToMarkdownPass` is proved to end in its state |
| HtmlToMarkdown.Finish | markdown/cli.ts:98-104 | the report write after the loop; `HtmlToMarkdown.NoReportWithoutUnhandled` and `HtmlToMarkdown.ReportFileHoldsReport` state when it writes and what |
| HtmlToMarkdown.Action | markdown/cli.ts:54-104 | the whole `h2m` action; `Cli.HtmlToMarkdownAction` is proved to end in its state |
| HtmlToMarkdown.RunAfterAbort | markdown/cli.ts:18-24 | after an error, no later document changes anything |
| HtmlToMarkdown.RunAppend | markdown/cli.ts:69 | the loop over two lists in turn is the loop over their concatenation |
| HtmlToMarkdown.AbortStopsPass | markdown/cli.ts:18-24 | an error among the first documents leaves the result of the whole pass equal to the result at that point |
| HtmlToMarkdown.CompletedRunConverted | markdown/cli.ts:69-95 | a pass that ends without error converted every HTML document |
| HtmlToMarkdown.RunProgress | markdown/cli.ts:69-73 | the progress count advances once per document, skipped or not, and by exactly the number of documents when the pass ends without error |
| HtmlToMarkdown.ProgressIrrelevant | markdown/cli.ts:70 | where the progress count starts has no effect on files, total, report or error |
| HtmlToMarkdown.MarkdownDocumentsSkipped | markdown/cli.ts:71-73 | Markdown documents cause no write, no delete, no report line and no error: dropping them changes nothing but the progress count |
| HtmlToMarkdown.TotalIsSum | markdown/cli.ts:76-77 | after a pass without error, the total is the sum of `unhandled.length` over all HTML documents |
| HtmlToMarkdown.SumUnhandledPositive | markdown/cli.ts:98 | that sum is non-zero exactly when some HTML document has an unhandled label |
| HtmlToMarkdown.PersistKeepsReport | markdown/cli.ts:86-94 | the mode policy changes neither the total nor the report |
| HtmlToMarkdown.RecordKeepsReportConsistent | markdown/cli.ts:76-84 | recording a document's labels keeps the counts shown equal to the total, and the report empty exactly when the total is 0 |
| HtmlToMarkdown.StepKeepsReportConsistent | markdown/cli.ts:69-94 | one iteration keeps the report consistent with the total |
| HtmlToMarkdown.RunKeepsReportConsistent | markdown/cli.ts:67-95 | the whole loop keeps the report consistent with the total |
| HtmlToMarkdown.PrintedTotalSnoc | markdown/cli.ts:76-84 | reporting one more document adds its number of unhandled labels to the counts shown |
| HtmlToMarkdown.ReportLinesEmpty | markdown/cli.ts:76-84 | the report has lines exactly when some document was reported |
| HtmlToMarkdown.ReportMatchesTotal | markdown/cli.ts:67-98 | after the pass, the counts shown in the report add up to the total, the report has lines exactly when the total is non-zero, and without error the total is the sum of the unhandled labels, non-zero exactly when some HTML document had one |
| HtmlToMarkdown.NoReportWithoutUnhandled | markdown/cli.ts:98-104 | when the pass stopped or the total is 0, no report file is written |
| HtmlToMarkdown.ReportFileHoldsReport | markdown/cli.ts:98-104 | when the pass ended without error and the total is non-zero, the report file holds the non-empty report lines joined with `"\n"`, and no other file differs from the pass's result |
| HtmlToMarkdown.ReportFileSplits | markdown/cli.ts:103 | when no report line holds a line feed, splitting the report file at line feeds gives the report lines back |
| HtmlToMarkdown.DryChangesNoFile | markdown/cli.ts:86-94 | in `dry` mode the loop changes no file |
| HtmlToMarkdown.DryActionWritesOnlyReport | markdown/cli.ts:86-104 | in `dry` mode the action changes no file except the report file, and changes nothing when the total is 0 |
| HtmlToMarkdown.KeepRemovesNothing | markdown/cli.ts:86-94 | in `keep` mode no file is removed |
| HtmlToMarkdown.KeepEffect | markdown/cli.ts:86-90 | a `keep` pass without error adds exactly the Markdown paths of the HTML documents and leaves every other file unchanged |
| HtmlToMarkdown.MarkdownOutputsFrom | markdown/cli.ts:88 | every written Markdown path is the rewritten path of some HTML document |
| HtmlToMarkdown.KeepWritesConversions | markdown/cli.ts:86-90 | in a `keep` pass without error, with distinct output paths, each Markdown path holds `withFm(frontmatter, markdown)` of its document |
| HtmlToMarkdown.ReplaceWithoutHtmlSuffix | markdown/cli.ts:86-93 | in `replace` mode a document whose path does not end in `.html` is written to its own path and then removed; the pass goes on |
| HtmlToMarkdown.SourcesAreHtml | markdown/cli.ts:92 | the paths `replace` unlinks all end in `.html` when every HTML document's path does |
| HtmlToMarkdown.OutputsAreNotHtml | markdown/cli.ts:88 | then no written Markdown path ends in `.html` |
| HtmlToMarkdown.ReplaceEffect | markdown/cli.ts:86-94 | a `replace` pass without error, over paths ending in `.html`, leaves the original files plus the Markdown paths minus the HTML sources: every Markdown file exists and no HTML source does |
| HtmlToMarkdown.ReplaceKeepsOthers | markdown/cli.ts:86-94 | a `replace` pass without error leaves every file that is neither a Markdown output nor an HTML source with its old contents |
| HtmlToMarkdown.ReplaceWritesConversions | markdown/cli.ts:86-92 | in a `replace` pass without error, over paths ending in `.html` and with distinct output paths, each Markdown path holds `withFm(frontmatter, markdown)` of its document |
| MarkdownToHtml.Step | markdown/cli.ts:113-122 | one iteration of the `m2h` loop; its effect over a pass is stated by `MarkdownToHtml.PassEffect` and `MarkdownToHtml.WritesConversions` |
| MarkdownToHtml.Run | markdown/cli.ts:112-123 | the `m2h` loop over all documents; `Cli.MarkdownToHtmlAction` is proved to end in its state |
| MarkdownToHtml.RunAfterAbort | markdown/cli.ts:18-24 | after an error, no later document changes anything |
| MarkdownToHtml.RunAppend | markdown/cli.ts:113 | the loop over two lists in turn is the loop over their concatenation |
| MarkdownToHtml.AbortStopsPass | markdown/cli.ts:18-24 | an error among the first documents ends the pass there |
| MarkdownToHtml.CompletedRunConverted | markdown/cli.ts:113-123 | a pass that ends without error converted every Markdown document |
| MarkdownToHtml.HtmlDocumentsSkipped | markdown/cli.ts:114-116 | documents that are not Markdown change nothing: dropping them gives the same result |
| MarkdownToHtml.RemovesNothing | markdown/cli.ts:112-123 | the pass never removes a file, with or without an error |
| MarkdownToHtml.PassEffect | markdown/cli.ts:119-122 | a pass without error adds exactly the HTML paths of the Markdown documents and leaves every other file unchanged |
| MarkdownToHtml.HtmlOutputsFrom | markdown/cli.ts:120 | every written HTML path is the rewritten path of some Markdown document |
| MarkdownToHtml.WritesConversions | markdown/cli.ts:117-122 | in a pass without error, with distinct output paths, each HTML path holds `withFm(frontmatter, m2h(body))` of its document |
| Cli.FileSystem.WriteFile | markdown/cli.ts:87-90 | `writeFileSync` creates or overwrites exactly that path |
| Cli.FileSystem.Unlink | markdown/cli.ts:92 | `unlinkSync` removes exactly that path, and fails exactly when the file does not exist |
| Cli.ReportBlockFor | markdown/cli.ts:78-84 | the pushed lines, built with `toCountMap`, the sort and the formatting, are the report block of the document |
| Cli.RecordUnhandled | markdown/cli.ts:76-85 | the total grows by the number of labels and the report lines by the document's block, exactly when there are labels |
| Cli.ApplyMode | markdown/cli.ts:86-94 | the writes and the unlink leave the file map and the error the mode policy describes |
| Cli.ConvertedDocument | markdown/cli.ts:76-94 | recording and then the mode policy give the state the value layer describes |
| Cli.HtmlToMarkdownDocument | markdown/cli.ts:69-94 | one iteration of the `h2m` loop ends in the state of one `Step` |
| Cli.HtmlToMarkdownPass | markdown/cli.ts:67-95 | the `h2m` loop ends with the files, total, report lines, progress count and error of `Run` over all documents |
| Cli.HtmlToMarkdownAction | markdown/cli.ts:54-104 | the `h2m` action ends with the files, total, report lines, progress count and error of `Action` |
| Cli.MarkdownToHtmlAction | markdown/cli.ts:111-124 | the `m2h` action ends with the files and error of `Run` over all documents |

## Left out

- The Caporal command definition and option validation (markdown/cli.ts:40-53, 108-110, 127): `--mode` is the three-case datatype `Mode`, and the folder argument only selects the documents, which are an input sequence.
- The `chalk` error print in `tryOrExit` (markdown/cli.ts:21-23): output only. The rethrow is modelled as an error that ends the pass.
- The `cli-progress` bar and the `console.log` messages (markdown/cli.ts:55-57, 61-65, 96, 100-102): output only. The bar's count is a plain counter.
- The `new Date().toISOString()` report file name (markdown/cli.ts:99): reading the clock is not modelled. The report file name is a parameter.
- The bodies of `fm`, `withFm`, `h2m`, `m2h` and `Document.findAll`/`iter`: these files are not part of this model. They are function values and an input sequence. `withFm` is taken to be total.
- Documents.HtmlConversionKeepsFrontMatter: the claim about the converted body rests on `BodyKept`, a law assumed of the `front-matter` codec rather than one it promises; only `FrontMatterKept` (the metadata block passes through) is relied on unconditionally.
- Documents.MarkdownConversionKeepsFrontMatter: the same; its body claim holds only under the assumed `BodyKept`.
- `async`/`await`: the loops await each call in turn, so every call is an ordinary call.
- Failures of `writeFileSync` (missing directory, permissions, a full disk): every write succeeds. Only `unlinkSync` on a missing file fails.
- Path normalisation: paths are compared as strings, so two spellings of one file are two keys.
- Aggregator.SortByCount: the JavaScript engine's sort algorithm is not modelled. With a comparator that never returns 0, the order of labels with equal counts depends on that algorithm. The model uses one insertion sort, and its contracts state only what holds for any order: a permutation with non-increasing counts.
- Decimal.NatToDecimal: counts are rendered as plain decimal numerals. The exponent notation JavaScript uses from 10^21 on is not modelled, because a count cannot exceed the length of a JavaScript array.
