/** The output-path rewrite of both passes: `path.replace(/\.html$/, ".md")`
    and `path.replace(/\.md$/, ".html")`. The regular expressions are anchored
    at the end of the string (no `m` flag), so only a trailing suffix is
    replaced, and a path without it comes back unchanged. */
module Paths {

  predicate EndsWith(s: string, suffix: string)
  {
    |suffix| <= |s| && s[|s| - |suffix|..] == suffix
  }

  /** The stem of `s` once `suffix` is taken off its end. */
  function Stem(s: string, suffix: string): string
    requires EndsWith(s, suffix)
  {
    s[..|s| - |suffix|]
  }

  /** `s.replace(/<suffix>$/, replacement)` for a literal suffix. */
  function ReplaceSuffix(s: string, suffix: string, replacement: string): (r: string)
    ensures EndsWith(s, suffix) ==> EndsWith(r, replacement) && Stem(r, replacement) == Stem(s, suffix)
    ensures !EndsWith(s, suffix) ==> r == s
  {
    if EndsWith(s, suffix) then Stem(s, suffix) + replacement else s
  }

  /** Output path of the HTML to Markdown pass. */
  function MarkdownPath(path: string): string
  {
    ReplaceSuffix(path, ".html", ".md")
  }

  /** Output path of the Markdown to HTML pass. */
  function HtmlPath(path: string): string
  {
    ReplaceSuffix(path, ".md", ".html")
  }

  /** Converting an HTML path to its Markdown path and back gives the
      original path. */
  lemma HtmlPathRoundTrip(path: string)
    requires EndsWith(path, ".html")
    ensures EndsWith(MarkdownPath(path), ".md")
    ensures HtmlPath(MarkdownPath(path)) == path
  {
    var m := MarkdownPath(path);
    assert Stem(m, ".md") == Stem(path, ".html");
    assert path == Stem(path, ".html") + ".html";
  }

  /** Converting a Markdown path to its HTML path and back gives the
      original path. */
  lemma MarkdownPathRoundTrip(path: string)
    requires EndsWith(path, ".md")
    ensures EndsWith(HtmlPath(path), ".html")
    ensures MarkdownPath(HtmlPath(path)) == path
  {
    var h := HtmlPath(path);
    assert Stem(h, ".html") == Stem(path, ".md");
    assert path == Stem(path, ".md") + ".md";
  }

  /** Two paths that both carry the suffix are rewritten to the same path
      only if they are the same path. */
  lemma ReplaceSuffixInjective(p: string, q: string, suffix: string, replacement: string)
    requires EndsWith(p, suffix) && EndsWith(q, suffix)
    requires ReplaceSuffix(p, suffix, replacement) == ReplaceSuffix(q, suffix, replacement)
    ensures p == q
  {
    var r := ReplaceSuffix(p, suffix, replacement);
    assert Stem(p, suffix) == Stem(r, replacement) == Stem(q, suffix);
    assert p == Stem(p, suffix) + suffix;
    assert q == Stem(q, suffix) + suffix;
  }

  /** The Markdown path of an HTML path is never itself an HTML path, so a
      file written by the HTML to Markdown pass never lands on a source
      document. */
  lemma MarkdownPathIsNotHtml(path: string)
    requires EndsWith(path, ".html")
    ensures !EndsWith(MarkdownPath(path), ".html")
  {
    var m := MarkdownPath(path);
    assert m[|m| - 1] == 'd';
  }
}
