/** The mutable state of renderMarkdown: the output array blocks and the two
    buffers paragraph and listItems, which the closures flushParagraph and
    flushList and the forEach callback update in place. */
module MarkdownRenderer {
  import opened Text
  import opened Markdown
  import MarkdownBlocks

  class Renderer {
    var blocks: seq<string>
    var paragraph: seq<string>
    var listItems: seq<string>

    /** The three buffers as a value of the line machine. */
    function State(): Buffers
      reads this
    {
      Buffers(blocks, paragraph, listItems)
    }

    /** const blocks = []; let paragraph = []; let listItems = []; */
    constructor ()
      ensures State() == Start
    {
      blocks := [];
      paragraph := [];
      listItems := [];
    }

    /** flushParagraph: writes the open paragraph, if any, as one p block. */
    method FlushParagraph()
      modifies this
      ensures State() == Markdown.FlushParagraph(old(State()))
    {
      if |paragraph| > 0 {
        blocks := blocks + ["<p>" + RenderInline(Join(paragraph, " ")) + "</p>"];
        paragraph := [];
      }
    }

    /** flushList: writes the open list, if any, as one ul block. */
    method FlushList()
      modifies this
      ensures State() == Markdown.FlushList(old(State()))
    {
      if |listItems| > 0 {
        blocks := blocks + ["<ul>" + ListItems(listItems) + "</ul>"];
        listItems := [];
      }
    }

    /** The forEach callback, one line. */
    method Consume(line: string)
      modifies this
      ensures State() == Step(old(State()), line)
    {
      var trimmed := Trim(line);
      if trimmed == "" {
        FlushParagraph();
        FlushList();
        return;
      }
      if StartsWith(trimmed, "![") {
        return;
      }
      if StartsWith(trimmed, "### ") {
        FlushParagraph();
        FlushList();
        blocks := blocks + ["<h4>" + RenderInline(trimmed[4..]) + "</h4>"];
        return;
      }
      if StartsWith(trimmed, "## ") {
        FlushParagraph();
        FlushList();
        blocks := blocks + ["<h3>" + RenderInline(trimmed[3..]) + "</h3>"];
        return;
      }
      if StartsWith(trimmed, "# ") {
        FlushParagraph();
        FlushList();
        blocks := blocks + ["<h2>" + RenderInline(trimmed[2..]) + "</h2>"];
        return;
      }
      if StartsWith(trimmed, "- ") || StartsWith(trimmed, "* ") {
        FlushParagraph();
        listItems := listItems + [trimmed[2..]];
        return;
      }
      paragraph := paragraph + [trimmed];
    }

    /** The end of renderMarkdown: flushParagraph(); flushList(); blocks.join(""). */
    method Finish() returns (html: string)
      modifies this
      ensures State() == Flush(old(State()))
      ensures html == Concat(Flush(old(State())).blocks)
    {
      FlushParagraph();
      FlushList();
      html := Join(blocks, "");
      JoinEmptyIsConcat(blocks);
    }
  }

  /** The body of renderMarkdown, shared word for word by both copies of the
      function: every line through the callback, the final flushes, then
      blocks.join(""). */
  method RenderLines(lines: seq<string>) returns (html: string)
    ensures html == Markdown.RenderLines(lines)
  {
    var r := new Renderer();
    var i := 0;
    while i < |lines|
      invariant 0 <= i <= |lines|
      invariant r.State() == Run(Start, lines[..i])
    {
      MarkdownBlocks.RunPrefix(Start, lines, i);
      r.Consume(lines[i]);
      i := i + 1;
    }
    PrefixAll(lines);
    html := r.Finish();
  }
}
