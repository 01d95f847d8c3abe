/** The parser's loops, proved against the parsing function. */
module MarkdownParser {
  import opened Blocks
  import opened Text
  import opened Markdown

  lemma JoinSnoc(parts: seq<string>, last: string, separator: string)
    ensures Join(parts + [last], separator) == (if parts == [] then "" else Join(parts, separator) + separator) + last
  {
    if parts == [] {
      assert parts + [last] == [last];
    } else {
      JoinAppend(parts, [last], separator);
    }
  }

  lemma SliceStep<T>(s: seq<T>, i: nat, j: nat)
    requires i <= j < |s|
    ensures s[i..j + 1] == s[i..j] + [s[j]]
    ensures s[i..][j - i] == s[j]
  {
  }

  lemma SpanFrom(lines: seq<string>, i: nat, j: nat, p: string -> bool)
    requires i <= j <= |lines|
    requires forall k :: i <= k < j ==> p(lines[k])
    requires j < |lines| ==> !p(lines[j])
    ensures Span(lines[i..], p) == j - i && lines[i..][..j - i] == lines[i..j]
  {
    forall k | 0 <= k < j - i ensures p(lines[i..][k]) {
      assert lines[i..][k] == lines[i + k];
    }
    SpanExactly(lines[i..], p, j - i);
  }

  lemma LastFeed(code: string, body: seq<string>)
    requires code == if body == [] then "" else Join(body, "\n") + "\n"
    ensures Join(body, "\n") == if code != "" && code[|code| - 1] == '\n' then code[..|code| - 1] else code
  {
  }

  lemma CodeTakes(lines: seq<string>, i: nat, j: nat)
    requires i < j <= |lines| && forall k :: i + 1 <= k < j ==> IsCodeLine(lines[k])
    requires j < |lines| ==> !IsCodeLine(lines[j])
    ensures var language := Trim(StripLeading(Trim(lines[i]), '`'));
            CodeStep(lines[i..])
              == ([ParsedBlock(Code, Fenced(language, Join(lines[i + 1..j], "\n")))],
                  (if j + 1 > |lines| then |lines| else j + 1) - i)
  {
    hide Trim, StripLeading, IsCodeLine, Join;
    SpanFrom(lines, i + 1, j, IsCodeLine);
    assert lines[i..][1..] == lines[i + 1..] && lines[i..][1..1 + (j - (i + 1))] == lines[i + 1..j];
  }

  /** Lines i+1, .. up to the closing fence, which is skipped even when it is missing. */
  method ReadCode(lines: seq<string>, i: nat) returns (block: ParsedBlock, next: nat)
    requires i < |lines|
    ensures ([block], (if next > |lines| then |lines| else next) - i) == CodeStep(lines[i..])
    ensures i < next
  {
    hide Trim, StripLeading, IsFence, Join, CodeStep;
    var language := Trim(StripLeading(Trim(lines[i]), '`'));
    var code := "";
    var j := i + 1;
    while j < |lines| && !IsFence(lines[j])
      invariant i + 1 <= j <= |lines|
      invariant forall k :: i + 1 <= k < j ==> IsCodeLine(lines[k])
      invariant code == if j == i + 1 then "" else Join(lines[i + 1..j], "\n") + "\n"
    {
      SliceStep(lines, i + 1, j);
      JoinSnoc(lines[i + 1..j], lines[j], "\n");
      code := code + lines[j] + "\n";
      j := j + 1;
    }
    next := j + 1;
    LastFeed(code, lines[i + 1..j]);
    if code != "" && code[|code| - 1] == '\n' {
      code := code[..|code| - 1];
    }
    CodeTakes(lines, i, j);
    block := ParsedBlock(Code, Fenced(language, code));
  }

  lemma QuotesSnoc(lines: seq<string>, line: string)
    ensures QuotesOf(lines + [line]) == QuotesOf(lines) + [QuoteOf(line)]
  {
    hide QuoteOf;
  }

  lemma EndsTrimmedSnoc(lines: seq<string>, line: string)
    ensures EndsTrimmed(lines + [line]) == EndsTrimmed(lines) + [TrimEnd(line)]
  {
    hide TrimEnd;
  }

  lemma NothingCollected()
    ensures Collect(QuotesOf([])) == "" && Collect(EndsTrimmed([])) == ""
  {
  }

  lemma CollectNext(lines: seq<string>, line: string)
    ensures Collect(lines + [line]) == (if Collect(lines) == "" then "" else Collect(lines) + "\n") + line
  {
    assert (lines + [line])[..|lines|] == lines;
  }

  method ReadQuote(lines: seq<string>, i: nat) returns (block: ParsedBlock, next: nat)
    requires i < |lines| && IsQuoteLine(lines[i])
    ensures ([block], next - i) == QuoteStep(lines[i..])
    ensures i < next <= |lines|
  {
    hide QuoteOf, IsQuoteLine, QuotesOf, Collect;
    var quote := "";
    var j := i;
    NothingCollected();
    assert lines[i..i] == [];
    while j < |lines| && IsQuoteLine(lines[j])
      invariant i <= j <= |lines|
      invariant forall k :: i <= k < j ==> IsQuoteLine(lines[k])
      invariant quote == Collect(QuotesOf(lines[i..j]))
    {
      SliceStep(lines, i, j);
      QuotesSnoc(lines[i..j], lines[j]);
      CollectNext(QuotesOf(lines[i..j]), QuoteOf(lines[j]));
      var q := QuoteOf(lines[j]);
      if quote != "" {
        quote := quote + "\n";
      }
      quote := quote + q;
      j := j + 1;
    }
    next := j;
    SpanFrom(lines, i, j, IsQuoteLine);
    block := ParsedBlock(Quote, Content.Text(quote));
  }

  lemma HasMarker(line: string, ordered: bool)
    requires IsItemLine(line, ordered)
    ensures ParseListMarker(Trim(line)).Some?
  {
  }

  lemma FirstItem(line: string, ordered: bool)
    requires IsItemLine(line, ordered)
    ensures ItemsOf([line]) == [ParseListMarker(Trim(line)).value.1]
  {
    hide Trim, ParseListMarker;
  }

  lemma ItemsOfSnoc(lines: seq<string>, line: string, ordered: bool)
    requires IsItemLine(line, ordered)
    ensures ItemsOf(lines + [line]) == ItemsOf(lines) + [ParseListMarker(Trim(line)).value.1]
  {
    hide Trim, ParseListMarker;
  }

  lemma ListTakes(lines: seq<string>, i: nat, j: nat, ordered: bool)
    requires i < j <= |lines| && forall k :: i < k < j ==> IsItemLine(lines[k], ordered)
    requires j < |lines| ==> !IsItemLine(lines[j], ordered)
    ensures ListStep(lines[i..], ordered) == ([ParsedBlock(List(ordered), Items(ItemsOf(lines[i..j])))], j - i)
  {
    hide IsItemLine, ItemsOf;
    SpanFrom(lines, i + 1, j, l => IsItemLine(l, ordered));
    assert lines[i..][1..] == lines[i + 1..] && lines[i..][..j - i] == lines[i..j];
  }

  method ReadList(lines: seq<string>, i: nat, ordered: bool) returns (block: ParsedBlock, next: nat)
    requires i < |lines| && IsItemLine(lines[i], ordered)
    ensures ([block], next - i) == ListStep(lines[i..], ordered)
    ensures i < next <= |lines|
  {
    hide Trim, ParseListMarker, ItemsOf, IsItemLine, ListStep;
    HasMarker(lines[i], ordered);
    FirstItem(lines[i], ordered);
    var items := [ParseListMarker(Trim(lines[i])).value.1];
    assert lines[i..i + 1] == [lines[i]];
    var j := i + 1;
    while j < |lines| && IsItemLine(lines[j], ordered)
      invariant i < j <= |lines|
      invariant forall k :: i < k < j ==> IsItemLine(lines[k], ordered)
      invariant items == ItemsOf(lines[i..j])
    {
      HasMarker(lines[j], ordered);
      items := items + [ParseListMarker(Trim(lines[j])).value.1];
      SliceStep(lines, i, j);
      ItemsOfSnoc(lines[i..j], lines[j], ordered);
      j := j + 1;
    }
    next := j;
    ListTakes(lines, i, j, ordered);
    block := ParsedBlock(List(ordered), Items(items));
  }

  method CollectParagraph(lines: seq<string>, i: nat) returns (paragraph: string, next: nat)
    requires i < |lines|
    ensures i <= next <= |lines| && next - i == Span(lines[i..], IsParagraphLine)
    ensures paragraph == Collect(EndsTrimmed(lines[i..][..next - i]))
  {
    hide Breaks, TrimEnd, EndsTrimmed, Collect;
    paragraph, next := "", i;
    NothingCollected();
    assert lines[i..i] == [];
    while next < |lines| && !Breaks(lines[next])
      invariant i <= next <= |lines|
      invariant forall k :: i <= k < next ==> IsParagraphLine(lines[k])
      invariant paragraph == Collect(EndsTrimmed(lines[i..next]))
    {
      SliceStep(lines, i, next);
      EndsTrimmedSnoc(lines[i..next], lines[next]);
      CollectNext(EndsTrimmed(lines[i..next]), TrimEnd(lines[next]));
      if paragraph != "" {
        paragraph := paragraph + "\n";
      }
      paragraph := paragraph + TrimEnd(lines[next]);
      next := next + 1;
    }
    SpanFrom(lines, i, next, IsParagraphLine);
  }

  method ReadParagraph(lines: seq<string>, i: nat, html: Html) returns (blocks: seq<ParsedBlock>, next: nat)
    requires i < |lines| && IsParagraphLine(lines[i])
    ensures (blocks, next - i) == ParagraphStep(lines[i..], html)
    ensures i < next <= |lines|
  {
    hide Breaks, Collect, EndsTrimmed;
    var paragraph;
    paragraph, next := CollectParagraph(lines, i);
    var converted := html(paragraph);
    blocks := if converted.Some? then converted.value else [ParsedBlock(Paragraph, Content.Text(paragraph))];
  }

  function Ahead(images: seq<ParsedImage>, run: (seq<ParsedImage>, string)): (seq<ParsedImage>, string) {
    (images + run.0, run.1)
  }

  lemma AheadOfNone(run: (seq<ParsedImage>, string))
    ensures Ahead([], run) == run
  {
    assert [] + run.0 == run.0;
  }

  /** One image of a run, behind the images before it. */
  lemma RunStep(images: seq<ParsedImage>, s: string)
    ensures match ParseImage(s)
            case None => Ahead(images, ImageRun(s)) == (images, s)
            case Some(img) =>
              var rest, more := TrimStart(s[img.consumed..]), images + [img];
              && |rest| < |s|
              && Ahead(images, ImageRun(s)) == if rest == "" || !StartsImage(rest) then (more, rest)
                                               else Ahead(more, ImageRun(rest))
  {
    hide ParseImage, StartsImage;
    var img := ParseImage(s);
    if img.None? {
      assert images + [] == images;
    } else {
      var rest := TrimStart(s[img.value.consumed..]);
      assert images + ([img.value] + ImageRun(rest).0) == images + [img.value] + ImageRun(rest).0;
    }
  }

  method ReadImages(line: string) returns (images: seq<ParsedImage>, rest: string)
    ensures (images, rest) == ImageRun(line)
  {
    hide ParseImage, TrimStart, StartsImage, ImageRun, Ahead;
    rest, images := line, [];
    AheadOfNone(ImageRun(line));
    while true
      invariant Ahead(images, ImageRun(rest)) == ImageRun(line)
      decreases |rest|
    {
      var img := ParseImage(rest);
      RunStep(images, rest);
      if img.None? {
        return;
      }
      images := images + [img.value];
      rest := TrimStart(rest[img.value.consumed..]);
      if rest == "" || !StartsImage(rest) {
        return;
      }
    }
  }

  /** What the lines from i on parse to; the index may have run past the end. */
  function LinesFrom(lines: seq<string>, i: nat, html: Html): seq<ParsedBlock> {
    if i < |lines| then ParseLines(lines[i..], html) else []
  }

  lemma WholeText(lines: seq<string>, html: Html)
    ensures LinesFrom(lines, 0, html) == ParseLines(lines, html)
  {
    assert lines[0..] == lines;
  }

  lemma NoLinesLeft(lines: seq<string>, i: nat, html: Html)
    requires i >= |lines|
    ensures LinesFrom(lines, i, html) == []
  {
  }

  lemma RoundOf(lines: seq<string>, i: nat, html: Html)
    requires i < |lines|
    ensures var (found, n) := Step(lines[i..], html);
            forall next: nat :: (if next > |lines| then |lines| else next) == i + n ==>
              LinesFrom(lines, i, html) == found + LinesFrom(lines, next, html)
  {
    hide Step;
    var (found, n) := Step(lines[i..], html);
    assert lines[i..][n..] == lines[i + n..];
    assert ParseLines(lines[i..], html) == found + ParseLines(lines[i + n..], html);
    assert i + n == |lines| ==> lines[i + n..] == [] && ParseLines(lines[i + n..], html) == [];
  }

  method ParseMarkdown(source: string, html: Html) returns (blocks: seq<ParsedBlock>)
    ensures blocks == Parse(source, html)
  {
    hide Lines, Step, ParseLines, LinesFrom;
    var lines := Lines(source);
    WholeText(lines, html);
    blocks := [];
    var i := 0;
    while i < |lines|
      invariant 0 <= i
      invariant blocks + LinesFrom(lines, i, html) == ParseLines(lines, html)
      decreases |lines| - i
    {
      var found, next := Dispatch(lines, i, html);
      RoundOf(lines, i, html);
      assert blocks + (found + LinesFrom(lines, next, html)) == blocks + found + LinesFrom(lines, next, html);
      blocks := blocks + found;
      i := next;
    }
    NoLinesLeft(lines, i, html);
  }

  /** One round of the main loop. */
  method Dispatch(lines: seq<string>, i: nat, html: Html) returns (found: seq<ParsedBlock>, next: nat)
    requires i < |lines|
    ensures (found, (if next > |lines| then |lines| else next) - i) == Step(lines[i..], html)
    ensures i < next
  {
    hide ParseVideoLine, ParseListMarker, ParseHeading, Trim, CodeStep, QuoteStep, ListStep, ParagraphStep, ImageRun,
        IsHorizontalRule;
    var t := Trim(lines[i]);
    if t == "" {
      return [], i + 1;
    }
    var video := ParseVideoLine(t);
    if video.Some? {
      return [video.value], i + 1;
    }
    if "```" <= t {
      var code, after := ReadCode(lines, i);
      return [code], after;
    }
    var heading := ParseHeading(t);
    if heading.Some? {
      return [ParsedBlock(Heading(heading.value.0), Content.Text(heading.value.1))], i + 1;
    }
    if ">" <= t {
      PrefixOfTrim(">", lines[i]);
      var quote, after := ReadQuote(lines, i);
      return [quote], after;
    }
    if IsHorizontalRule(t) {
      return [ParsedBlock(Divider, Empty)], i + 1;
    }
    if StartsImage(t) {
      var images, rest := ReadImages(t);
      if images != [] && rest == "" {
        return ImageBlocks(images), i + 1;
      }
    }
    var marker := ParseListMarker(t);
    if marker.Some? {
      var list, after := ReadList(lines, i, marker.value.0);
      return [list], after;
    }
    found, next := ReadParagraph(lines, i, html);
  }
}
