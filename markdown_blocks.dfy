/** Properties of the block-level line machine of renderMarkdown: how
    blank lines, image lines, headings, bullets and paragraph lines shape
    the output. */
module MarkdownBlocks {
  import opened Text
  import opened Markdown

  lemma {:induction false} RunAppend(b: Buffers, x: seq<string>, y: seq<string>)
    ensures Run(b, x + y) == Run(Run(b, x), y)
    decreases |x|
  {
    if x == [] {
      assert x + y == y;
    } else {
      assert (x + y)[0] == x[0] && (x + y)[1..] == x[1..] + y;
      RunAppend(Step(b, x[0]), x[1..], y);
    }
  }

  /** One more line is one more step. */
  lemma RunSnoc(b: Buffers, x: seq<string>, line: string)
    ensures Run(b, x + [line]) == Step(Run(b, x), line)
  {
    RunAppend(b, x, [line]);
  }

  lemma RunPrefix(b: Buffers, lines: seq<string>, i: nat)
    requires i < |lines|
    ensures Run(b, lines[..i + 1]) == Step(Run(b, lines[..i]), lines[i])
  {
    assert lines[..i + 1] == lines[..i] + [lines[i]];
    RunSnoc(b, lines[..i], lines[i]);
  }

  /** The buffers b with the blocks pre written before its own blocks. */
  function After(pre: seq<string>, b: Buffers): Buffers {
    b.(blocks := pre + b.blocks)
  }

  lemma StepAfter(pre: seq<string>, b: Buffers, line: string)
    ensures Step(After(pre, b), line) == After(pre, Step(b, line))
  {
    var trimmed := Trim(line);
    FlushAfter(pre, b);
    FlushParagraphAfter(pre, b);
    if trimmed != "" && !StartsWith(trimmed, "![") {
      if StartsWith(trimmed, "### ") {
        EmitAfter(pre, Flush(b), "<h4>" + RenderInline(trimmed[4..]) + "</h4>");
      } else if StartsWith(trimmed, "## ") {
        EmitAfter(pre, Flush(b), "<h3>" + RenderInline(trimmed[3..]) + "</h3>");
      } else if StartsWith(trimmed, "# ") {
        EmitAfter(pre, Flush(b), "<h2>" + RenderInline(trimmed[2..]) + "</h2>");
      }
    }
  }

  lemma EmitAfter(pre: seq<string>, b: Buffers, block: string)
    ensures Emit(After(pre, b), block) == After(pre, Emit(b, block))
  {
    assert (pre + b.blocks) + [block] == pre + (b.blocks + [block]);
  }

  lemma FlushParagraphAfter(pre: seq<string>, b: Buffers)
    ensures FlushParagraph(After(pre, b)) == After(pre, FlushParagraph(b))
  {
    if |b.paragraph| > 0 {
      assert (pre + b.blocks) + [ParagraphBlock(b.paragraph)] == pre + (b.blocks + [ParagraphBlock(b.paragraph)]);
    }
  }

  /** Blocks already written never influence what the remaining lines produce. */
  lemma {:induction false} RunAfter(pre: seq<string>, b: Buffers, lines: seq<string>)
    ensures Run(After(pre, b), lines) == After(pre, Run(b, lines))
    decreases |lines|
  {
    if lines != [] {
      StepAfter(pre, b, lines[0]);
      RunAfter(pre, Step(b, lines[0]), lines[1..]);
    }
  }

  lemma FlushAfter(pre: seq<string>, b: Buffers)
    ensures Flush(After(pre, b)) == After(pre, Flush(b))
  {
    FlushParagraphAfter(pre, b);
    var f := FlushParagraph(b);
    if |f.listItems| > 0 {
      assert (pre + f.blocks) + [ListBlock(f.listItems)] == pre + (f.blocks + [ListBlock(f.listItems)]);
    }
  }

  /** After a line that flushes, rendering goes on as if from a new document
      whose output is appended to what was written so far. */
  lemma RestartAfterFlush(a: seq<string>, pre: seq<string>, c: seq<string>)
    requires Run(Start, a) == After(pre, Start)
    ensures Flush(Run(Start, a + c)).blocks == pre + Flush(Run(Start, c)).blocks
  {
    RunAppend(Start, a, c);
    RunAfter(pre, Start, c);
    FlushAfter(pre, Run(Start, c));
  }

  /** A blank line closes the open paragraph and list: the document renders as
      the part before it followed by the part after it. */
  lemma BlankLineSeparates(a: seq<string>, blank: string, c: seq<string>)
    requires Trim(blank) == ""
    ensures RenderLines(a + [blank] + c) == RenderLines(a) + RenderLines(c)
  {
    var pre := Flush(Run(Start, a)).blocks;
    BlankWritten(a, blank);
    RestartAfterFlush(a + [blank], pre, c);
    ConcatAppend(pre, Flush(Run(Start, c)).blocks);
  }

  lemma BlankWritten(a: seq<string>, blank: string)
    requires Trim(blank) == ""
    ensures Run(Start, a + [blank]) == After(Flush(Run(Start, a)).blocks, Start)
  {
    RunSnoc(Start, a, blank);
    assert Step(Run(Start, a), blank) == Flush(Run(Start, a));
  }

  /** A line starting with "![" is dropped without flushing: the lines around
      it render as if it were not there, so a paragraph continues across it. */
  lemma ImageLineDropped(a: seq<string>, image: string, c: seq<string>)
    requires StartsWith(Trim(image), "![")
    ensures RenderLines(a + [image] + c) == RenderLines(a + c)
  {
    RunAppend(Start, a + [image], c);
    RunAppend(Start, a, [image]);
    RunAppend(Start, a, c);
  }

  /** Which of the tests in Step a trimmed line passes is decided by its first character. */
  lemma BulletIsNoOtherLine(trimmed: string)
    requires IsBullet(trimmed)
    ensures trimmed != "" && !StartsWith(trimmed, "![") && !StartsWith(trimmed, "### ")
    ensures !StartsWith(trimmed, "## ") && !StartsWith(trimmed, "# ")
    ensures |trimmed| >= 2
  {
    assert trimmed[0] == trimmed[..2][0];
  }

  lemma HeadingIsNoImage(trimmed: string)
    requires |trimmed| > 0 && trimmed[0] == '#'
    ensures !StartsWith(trimmed, "![")
  {
    if |trimmed| >= 2 {
      assert trimmed[..2][0] == '#';
    }
  }

  /** One heading line, as a step: whatever was open is flushed, then the heading is written. */
  lemma StepHeading(b: Buffers, line: string) returns (heading: string)
    requires StartsWith(Trim(line), "### ") || StartsWith(Trim(line), "## ") || StartsWith(Trim(line), "# ")
    ensures Step(b, line) == Emit(Flush(b), heading)
    ensures StartsWith(Trim(line), "### ") ==> heading == "<h4>" + RenderInline(Trim(line)[4..]) + "</h4>"
    ensures !StartsWith(Trim(line), "### ") && StartsWith(Trim(line), "## ") ==>
      heading == "<h3>" + RenderInline(Trim(line)[3..]) + "</h3>"
    ensures !StartsWith(Trim(line), "### ") && !StartsWith(Trim(line), "## ") ==>
      heading == "<h2>" + RenderInline(Trim(line)[2..]) + "</h2>"
  {
    var trimmed := Trim(line);
    if StartsWith(trimmed, "### ") {
      assert trimmed[..4][0] == trimmed[0];
      HeadingIsNoImage(trimmed);
      heading := "<h4>" + RenderInline(trimmed[4..]) + "</h4>";
    } else if StartsWith(trimmed, "## ") {
      assert trimmed[..3][0] == trimmed[0];
      HeadingIsNoImage(trimmed);
      heading := "<h3>" + RenderInline(trimmed[3..]) + "</h3>";
    } else {
      assert trimmed[..2][0] == trimmed[0];
      HeadingIsNoImage(trimmed);
      heading := "<h2>" + RenderInline(trimmed[2..]) + "</h2>";
    }
  }

  lemma HeadingWritten(a: seq<string>, line: string, heading: string)
    requires Step(Run(Start, a), line) == Emit(Flush(Run(Start, a)), heading)
    ensures Run(Start, a + [line]) == After(Flush(Run(Start, a)).blocks + [heading], Start)
  {
    RunSnoc(Start, a, line);
    var f := Flush(Run(Start, a));
    assert f.blocks + [heading] + [] == f.blocks + [heading];
  }

  lemma HeadingSeparates(a: seq<string>, line: string, c: seq<string>, heading: string)
    requires Step(Run(Start, a), line) == Emit(Flush(Run(Start, a)), heading)
    ensures RenderLines(a + [line] + c) == RenderLines(a) + heading + RenderLines(c)
  {
    var pre := Flush(Run(Start, a)).blocks + [heading];
    HeadingWritten(a, line, heading);
    RestartAfterFlush(a + [line], pre, c);
    ConcatAppend(Flush(Run(Start, a)).blocks, [heading]);
    ConcatAppend(pre, Flush(Run(Start, c)).blocks);
    ConcatPair(heading, heading);
  }

  /** "### ", "## " and "# " (tested in that order) become h4, h3 and h2, with
      the marker removed; whatever was open is flushed before the heading. */
  lemma HeadingLine(a: seq<string>, line: string, c: seq<string>)
    ensures StartsWith(Trim(line), "### ") ==>
      RenderLines(a + [line] + c) == RenderLines(a) + ("<h4>" + RenderInline(Trim(line)[4..]) + "</h4>") + RenderLines(c)
    ensures !StartsWith(Trim(line), "### ") && StartsWith(Trim(line), "## ") ==>
      RenderLines(a + [line] + c) == RenderLines(a) + ("<h3>" + RenderInline(Trim(line)[3..]) + "</h3>") + RenderLines(c)
    ensures !StartsWith(Trim(line), "### ") && !StartsWith(Trim(line), "## ") && StartsWith(Trim(line), "# ") ==>
      RenderLines(a + [line] + c) == RenderLines(a) + ("<h2>" + RenderInline(Trim(line)[2..]) + "</h2>") + RenderLines(c)
  {
    var trimmed := Trim(line);
    if StartsWith(trimmed, "### ") || StartsWith(trimmed, "## ") || StartsWith(trimmed, "# ") {
      var heading := StepHeading(Run(Start, a), line);
      HeadingSeparates(a, line, c, heading);
    }
  }

  lemma StepBullet(b: Buffers, line: string)
    requires IsBullet(Trim(line))
    ensures Step(b, line) == FlushParagraph(b).(listItems := FlushParagraph(b).listItems + [Trim(line)[2..]])
  {
    BulletIsNoOtherLine(Trim(line));
  }

  lemma StepParagraph(b: Buffers, line: string)
    requires IsParagraphLine(line)
    ensures Step(b, line) == b.(paragraph := b.paragraph + [Trim(line)])
  {
  }

  lemma BulletRun(done: seq<string>, items: seq<string>)
    requires |items| > 0 && IsBullet(Trim(items[0]))
    ensures Run(Buffers([], [], done), items) == Run(Buffers([], [], done + [Trim(items[0])[2..]]), items[1..])
  {
    StepBullet(Buffers([], [], done), items[0]);
  }

  /** Consecutive bullet lines accumulate, in order, into the open list. */
  lemma {:induction false} BulletsAccumulate(done: seq<string>, items: seq<string>, texts: seq<string>)
    requires |texts| == |items|
    requires forall i :: 0 <= i < |items| ==> IsBullet(Trim(items[i])) && texts[i] == Trim(items[i])[2..]
    ensures Run(Buffers([], [], done), items) == Buffers([], [], done + texts)
    decreases |items|
  {
    if items == [] {
      assert done + texts == done;
    } else {
      var rest, trest := items[1..], texts[1..];
      forall i | 0 <= i < |rest|
        ensures IsBullet(Trim(rest[i])) && trest[i] == Trim(rest[i])[2..]
      {
        assert trest[i] == texts[i + 1] && rest[i] == items[i + 1];
      }
      BulletRun(done, items);
      BulletsAccumulate(done + [texts[0]], rest, trest);
      ConsSplit(done, texts);
    }
  }

  lemma BulletsFinish(texts: seq<string>)
    requires |texts| > 0
    ensures Concat(Flush(Buffers([], [], texts)).blocks) == "<ul>" + ListItems(texts) + "</ul>"
  {
    assert Flush(Buffers([], [], texts)).blocks == [ListBlock(texts)];
    assert Concat([ListBlock(texts)]) == ListBlock(texts) + Concat([]);
  }

  /** A run of bullet lines renders as one ul whose li keep the source order. */
  lemma BulletLines(items: seq<string>, texts: seq<string>)
    requires |items| > 0 && |texts| == |items|
    requires forall i :: 0 <= i < |items| ==> IsBullet(Trim(items[i])) && texts[i] == Trim(items[i])[2..]
    ensures RenderLines(items) == "<ul>" + ListItems(texts) + "</ul>"
  {
    BulletsAccumulate([], items, texts);
    assert [] + texts == texts;
    BulletsFinish(texts);
  }

  lemma ParagraphRun(done: seq<string>, lines: seq<string>)
    requires |lines| > 0 && IsParagraphLine(lines[0])
    ensures Run(Buffers([], done, []), lines) == Run(Buffers([], done + [Trim(lines[0])], []), lines[1..])
  {
    StepParagraph(Buffers([], done, []), lines[0]);
  }

  /** Consecutive paragraph lines accumulate, trimmed and in order. */
  lemma {:induction false} ParagraphAccumulates(done: seq<string>, lines: seq<string>, texts: seq<string>)
    requires |texts| == |lines|
    requires forall i :: 0 <= i < |lines| ==> IsParagraphLine(lines[i]) && texts[i] == Trim(lines[i])
    ensures Run(Buffers([], done, []), lines) == Buffers([], done + texts, [])
    decreases |lines|
  {
    if lines == [] {
      assert done + texts == done;
    } else {
      ParagraphRun(done, lines);
      ParagraphAccumulates(done + [texts[0]], lines[1..], texts[1..]);
      ConsSplit(done, texts);
    }
  }

  lemma ParagraphFinish(texts: seq<string>)
    requires |texts| > 0
    ensures Concat(Flush(Buffers([], texts, [])).blocks) == "<p>" + RenderInline(Join(texts, " ")) + "</p>"
  {
    assert Flush(Buffers([], texts, [])).blocks == [ParagraphBlock(texts)];
    assert Concat([ParagraphBlock(texts)]) == ParagraphBlock(texts) + Concat([]);
  }

  /** A run of paragraph lines renders as one p, the trimmed lines joined with one space. */
  lemma ParagraphLines(lines: seq<string>, texts: seq<string>)
    requires |lines| > 0 && |texts| == |lines|
    requires forall i :: 0 <= i < |lines| ==> IsParagraphLine(lines[i]) && texts[i] == Trim(lines[i])
    ensures RenderLines(lines) == "<p>" + RenderInline(Join(texts, " ")) + "</p>"
  {
    ParagraphAccumulates([], lines, texts);
    assert [] + texts == texts;
    ParagraphFinish(texts);
  }

  lemma BulletsThenParagraph(texts: seq<string>, line: string)
    requires |texts| > 0 && IsParagraphLine(line)
    ensures Flush(Run(Buffers([], [], texts), [line])).blocks == [ParagraphBlock([Trim(line)]), ListBlock(texts)]
  {
    StepParagraph(Buffers([], [], texts), line);
    assert Run(Buffers([], [], texts), [line]) == Buffers([], [Trim(line)], texts);
  }

  /** Flushing always runs paragraph first: a paragraph line that follows
      bullet items without a blank line is written before their ul. */
  lemma ParagraphAfterBulletsComesFirst(items: seq<string>, texts: seq<string>, line: string)
    requires |items| > 0 && |texts| == |items|
    requires forall i :: 0 <= i < |items| ==> IsBullet(Trim(items[i])) && texts[i] == Trim(items[i])[2..]
    requires IsParagraphLine(line)
    ensures RenderLines(items + [line])
      == ("<p>" + RenderInline(Trim(line)) + "</p>") + ("<ul>" + ListItems(texts) + "</ul>")
  {
    BulletsAccumulate([], items, texts);
    assert [] + texts == texts;
    RunAppend(Start, items, [line]);
    BulletsThenParagraph(texts, line);
    assert Join([Trim(line)], " ") == Trim(line);
    ConcatPair(ParagraphBlock([Trim(line)]), ListBlock(texts));
  }

  lemma RenderEmpty()
    ensures Render("") == ""
  {
  }

  /** Carriage returns never matter. */
  lemma RenderIgnoresCarriageReturns(markdown: string)
    ensures Render(markdown) == Render(RemoveChar(markdown, '\r'))
  {
    var m := RemoveChar(markdown, '\r');
    assert RemoveChar(m, '\r') == m;
    if markdown != "" && m == "" {
      assert Split(m, '\n') == [""];
      assert Run(Start, [""]) == Flush(Start);
    }
  }

  /** Lines are trimmed before anything looks at them. */
  lemma StepTrims(b: Buffers, line: string)
    ensures Step(b, Trim(line)) == Step(b, line)
  {
    TrimIdempotent(line);
  }

  lemma TrimmedStep(b: Buffers, lines: seq<string>, trimmed: seq<string>)
    requires |lines| > 0 && |trimmed| > 0 && trimmed[0] == Trim(lines[0])
    ensures Run(b, trimmed) == Run(Step(b, lines[0]), trimmed[1..])
  {
    StepTrims(b, lines[0]);
  }

  lemma {:induction false} RunTrims(b: Buffers, lines: seq<string>, trimmed: seq<string>)
    requires |trimmed| == |lines| && forall i :: 0 <= i < |lines| ==> trimmed[i] == Trim(lines[i])
    ensures Run(b, trimmed) == Run(b, lines)
    decreases |lines|
  {
    if lines != [] {
      var rest, trest := lines[1..], trimmed[1..];
      forall i | 0 <= i < |rest|
        ensures trest[i] == Trim(rest[i])
      {
        assert trest[i] == trimmed[i + 1] && rest[i] == lines[i + 1];
      }
      TrimmedStep(b, lines, trimmed);
      RunTrims(Step(b, lines[0]), rest, trest);
    }
  }
}
