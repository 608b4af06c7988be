/** The loop in `main` that builds the output text: for every `<article>`
    element of the page, in document order, its inner HTML converted to
    markdown is appended to a growing buffer, followed by three newlines.
    HTML parsing and the HTML-to-markdown converter are outside the model:
    the page is the sequence of its articles, and the converter is a
    function passed in. */
module MarkdownAssembly {
  import opened Text

  /** One `<article>` element, by its inner HTML. */
  datatype Article = Article(innerHtml: Bytes)

  /** What follows each converted article: three newline bytes. */
  const Separator: Bytes := [10, 10, 10]

  /** The text appended for one article. */
  function Block(a: Article, toMarkdown: Bytes -> Bytes): Bytes {
    toMarkdown(a.innerHtml) + Separator
  }

  /** The blocks of all articles, in order: what the buffer should hold. */
  function Rendered(articles: seq<Article>, toMarkdown: Bytes -> Bytes): Bytes
    decreases |articles|
  {
    if articles == [] then []
    else Rendered(articles[..|articles| - 1], toMarkdown) + Block(articles[|articles| - 1], toMarkdown)
  }

  /** Total length of the converted articles, separators not included. */
  function MarkdownLength(articles: seq<Article>, toMarkdown: Bytes -> Bytes): nat
    decreases |articles|
  {
    if articles == [] then 0
    else MarkdownLength(articles[..|articles| - 1], toMarkdown) + |toMarkdown(articles[|articles| - 1].innerHtml)|
  }

  /** The output is as long as the converted articles plus three bytes per article. */
  lemma {:induction false} RenderedLength(articles: seq<Article>, toMarkdown: Bytes -> Bytes)
    ensures |Rendered(articles, toMarkdown)| == MarkdownLength(articles, toMarkdown) + 3 * |articles|
    decreases |articles|
  {
    if articles != [] {
      RenderedLength(articles[..|articles| - 1], toMarkdown);
    }
  }

  /** Rendering a page split in two is rendering each part and joining them:
      no block depends on its neighbours. */
  lemma {:induction false} RenderedConcat(xs: seq<Article>, ys: seq<Article>, toMarkdown: Bytes -> Bytes)
    ensures Rendered(xs + ys, toMarkdown) == Rendered(xs, toMarkdown) + Rendered(ys, toMarkdown)
    decreases |ys|
  {
    if ys == [] {
      assert xs + ys == xs;
    } else {
      var init := ys[..|ys| - 1];
      assert (xs + ys)[..|xs + ys| - 1] == xs + init;
      RenderedConcat(xs, init, toMarkdown);
    }
  }

  /** Document order: the k-th article's markdown and separator sit in the
      output right after the blocks of the articles before it. */
  lemma BlockInPlace(articles: seq<Article>, k: nat, toMarkdown: Bytes -> Bytes)
    requires k < |articles|
    ensures var start := |Rendered(articles[..k], toMarkdown)|;
      var b := Block(articles[k], toMarkdown);
      start + |b| <= |Rendered(articles, toMarkdown)|
      && Rendered(articles, toMarkdown)[start..start + |b|] == b
  {
    var pre, rest := articles[..k], articles[k + 1..];
    assert articles == pre + [articles[k]] + rest;
    RenderedConcat(pre + [articles[k]], rest, toMarkdown);
    assert (pre + [articles[k]])[..k] == pre;
  }

  /** Two articles give two blocks, in order, each closed by blank lines. */
  lemma TwoArticles(a1: Article, a2: Article, toMarkdown: Bytes -> Bytes)
    ensures Rendered([a1, a2], toMarkdown)
      == toMarkdown(a1.innerHtml) + [10, 10, 10] + toMarkdown(a2.innerHtml) + [10, 10, 10]
  {
    assert [a1, a2][..1] == [a1];
    assert [a1][..0] == [];
    assert Rendered([a1], toMarkdown) == Block(a1, toMarkdown);
    assert Rendered([a1, a2], toMarkdown) == Block(a1, toMarkdown) + Block(a2, toMarkdown);
  }

  /** The loop: start from an empty buffer and push each article's markdown,
      then the separator. */
  method AssembleMarkdown(articles: seq<Article>, toMarkdown: Bytes -> Bytes) returns (buffer: Bytes)
    ensures buffer == Rendered(articles, toMarkdown)
    ensures |buffer| == MarkdownLength(articles, toMarkdown) + 3 * |articles|
  {
    buffer := [];
    for i := 0 to |articles|
      invariant buffer == Rendered(articles[..i], toMarkdown)
    {
      buffer := buffer + toMarkdown(articles[i].innerHtml);
      buffer := buffer + Separator;
      assert articles[..i + 1][..i] == articles[..i];
    }
    assert articles[..|articles|] == articles;
    RenderedLength(articles, toMarkdown);
  }
}
