/** assets/js/blog.js carries its own renderMarkdown, a character-for-character
    copy of the one in assets/js/news.js; the rest of the file is DOM assembly.
    The copy is modelled by the same steps, and its contract is the same
    function of the input as that of News.RenderMarkdown: the two renderers
    agree on every input. */
module Blog {
  import opened Text
  import Markdown
  import MarkdownRenderer

  method RenderMarkdown(markdown: string) returns (html: string)
    ensures html == Markdown.Render(markdown)
  {
    if markdown == "" {
      return "";
    }
    var lines := Split(RemoveChar(markdown, '\r'), '\n');
    html := MarkdownRenderer.RenderLines(lines);
  }
}
