/** The shapes of lines leave no choice: a text that shows them parses to those blocks and no others. */
module ShapesDecide {
  import opened Options
  import opened Blocks
  import opened Text
  import opened TextLaws
  import opened Markdown
  import opened ImageShapes
  import opened LineShapes
  import RoundTrip

  lemma RunOnce(s: string, c: char, n: int, m: int)
    requires RunOf(s, n, c) && RunOf(s, m, c)
    ensures n == m
  {
  }

  lemma StripOnce(s: string, c: char, n: int)
    requires RunOf(s, n, c)
    ensures StripLeading(s, c) == s[n..]
  {
    var m := StripIs(s, c);
    RunOnce(s, c, n, m);
  }

  lemma HeadingOnce(t: string, found: seq<ParsedBlock>)
    requires t != "" && t[0] == '#' && HeadingRead(t, found)
    ensures ParseHeading(t).Some?
    ensures var (level, text) := ParseHeading(t).value;
            found == [ParsedBlock(Heading(level), Content.Text(text))]
  {
    hide Trim, CountLeading;
    var n :| n >= 1 && RunOf(t, n, '#')
             && found == [ParsedBlock(Heading(if n <= 6 then n else 6), Content.Text(Trim(t[n..])))];
    assert RunOf(t, CountLeading(t, '#'), '#');
    RunOnce(t, '#', n, CountLeading(t, '#'));
  }

  lemma CodeOnce(lines: seq<string>, found: seq<ParsedBlock>, n: nat)
    requires lines != [] && CodeRead(lines, found, n)
    ensures (found, n) == CodeStep(lines)
  {
    hide Trim, Join, StripLeading, Span, FenceAt, IsCodeLine;
    var m, k :|
      && FencedTo(lines, m) && RunOf(Trim(lines[0]), k, '`')
      && found == [ParsedBlock(Code, Fenced(Trim(Trim(lines[0])[k..]), Join(lines[1..m], "\n")))]
      && n == if m < |lines| then m + 1 else m;
    StripOnce(Trim(lines[0]), '`', k);
    FenceOnce(lines, m);
  }

  lemma FenceOnce(lines: seq<string>, m: int)
    requires FencedTo(lines, m)
    ensures 1 <= m <= |lines| && Span(lines[1..], IsCodeLine) == m - 1
  {
    hide TrimStart, Span;
    forall i | 0 <= i < m - 1 ensures IsCodeLine(lines[1..][i]) {
      assert lines[1..][i] == lines[i + 1];
    }
    SpanExactly(lines[1..], IsCodeLine, m - 1);
  }

  lemma SaysOnce(line: string, quote: string)
    requires Says(line, quote)
    ensures quote == QuoteOf(line)
  {
    hide Trim, TrimStart, StripLeading;
    var k :| RunOf(TrimStart(line), k, '>') && quote == Trim(TrimStart(line)[k..]);
    StripOnce(TrimStart(line), '>', k);
  }

  lemma GatheredOnce(lines: seq<string>, text: string, other: string)
    requires Gathered(lines, text) && Gathered(lines, other)
    ensures text == other
  {
    hide Join;
    var m :| 0 <= m <= |lines| && (forall i :: 0 <= i < m ==> lines[i] == "") && (m < |lines| ==> lines[m] != "")
             && text == Join(lines[m..], "\n");
    var k :| 0 <= k <= |lines| && (forall i :: 0 <= i < k ==> lines[i] == "") && (k < |lines| ==> lines[k] != "")
             && other == Join(lines[k..], "\n");
    assert m == k;
  }

  lemma QuoteOnce(lines: seq<string>, found: seq<ParsedBlock>, n: nat)
    requires lines != [] && IsQuoteLine(lines[0]) && QuoteRead(lines, found, n)
    ensures (found, n) == QuoteStep(lines)
  {
    hide QuoteOf, TrimStart, Span, Collect, Gathered, Says;
    var quotes: seq<string>, text :|
      && 1 <= n == |quotes| <= |lines| && (n < |lines| ==> !QuotedLine(lines[n]))
      && (forall i :: 0 <= i < n ==> QuotedLine(lines[i]) && Says(lines[i], quotes[i]))
      && Gathered(quotes, text) && found == [ParsedBlock(Quote, Content.Text(text))];
    forall i | 0 <= i < n ensures IsQuoteLine(lines[i]) && quotes[i] == QuoteOf(lines[i]) {
      assert QuotedLine(lines[i]);
      SaysOnce(lines[i], quotes[i]);
    }
    SpanExactly(lines, IsQuoteLine, n);
    assert quotes == QuotesOf(lines[..n]);
    CollectGathers(quotes);
    GatheredOnce(quotes, text, Collect(quotes));
  }

  lemma ItemOnce(line: string, ordered: bool, item: string)
    requires ItemIs(Trim(line), ordered, item)
    ensures IsItemLine(line, ordered) && ParseListMarker(Trim(line)) == Some((ordered, item))
  {
    hide Trim, ParseListMarker, ItemIs;
    MarkerIs(Trim(line), ordered, item);
    ItemLineIs(line, ordered);
  }

  lemma ListOnce(lines: seq<string>, ordered: bool, found: seq<ParsedBlock>, n: nat)
    requires lines != [] && ListRead(lines, ordered, found, n)
    ensures (found, n) == ListStep(lines, ordered)
  {
    hide Trim, IsItemLine, ItemIs, Span, ParseListMarker;
    var items: seq<string> :|
      && 1 <= n == |items| <= |lines| && (n < |lines| ==> !AnyItem(Trim(lines[n]), ordered))
      && (forall i :: 0 <= i < n ==> ItemIs(Trim(lines[i]), ordered, items[i]))
      && found == [ParsedBlock(List(ordered), Items(items))];
    forall i | 0 <= i < n
      ensures IsItemLine(lines[i], ordered) && ParseListMarker(Trim(lines[i])) == Some((ordered, items[i]))
    {
      assert ItemIs(Trim(lines[i]), ordered, items[i]);
      ItemOnce(lines[i], ordered, items[i]);
    }
    if n < |lines| { ItemLineIs(lines[n], ordered); }
    SpanExactly(lines[1..], l => IsItemLine(l, ordered), n - 1);
    assert items == ItemsOf(lines[..n]);
  }

  lemma ParagraphOnce(lines: seq<string>, html: Html, found: seq<ParsedBlock>, n: nat)
    requires lines != [] && IsParagraphLine(lines[0]) && ParagraphRead(lines, html, found, n)
    ensures (found, n) == ParagraphStep(lines, html)
  {
    hide Trim, TrimEnd, Breaks, Stops, Span, Collect, Join;
    var ends: seq<string> :|
      && 1 <= n == |ends| <= |lines| && (n < |lines| ==> Stops(Trim(lines[n])))
      && (forall i :: 0 <= i < n ==> !Stops(Trim(lines[i])) && ends[i] == TrimEnd(lines[i]))
      && var text := Join(ends, "\n");
         found == match html(text)
                  case Some(blocks) => blocks
                  case None => [ParsedBlock(Paragraph, Content.Text(text))];
    forall i | 0 <= i < n ensures IsParagraphLine(lines[i]) && ends[i] == TrimEnd(lines[i]) && ends[i] != "" {
      assert !Stops(Trim(lines[i]));
      BreaksIs(lines[i]);
      FullLine(lines[i]);
    }
    if n < |lines| { BreaksIs(lines[n]); }
    SpanExactly(lines, IsParagraphLine, n);
    assert ends == EndsTrimmed(lines[..n]);
    RoundTrip.CollectIsJoin(ends);
  }

  lemma ImagesOnce(t: string, found: seq<ParsedBlock>)
    requires ImagesRead(t, found)
    ensures ImageLine(t).Some? && found == ImageBlocks(ImageLine(t).value)
  {
    hide ImageLine, ImagesOnly;
    var images: seq<ParsedImage> :|
      && ImagesOnly(t, images) && |found| == |images|
      && forall i :: 0 <= i < |images| ==>
           found[i] == ParsedBlock(Image, Picture(images[i].src, images[i].alt, images[i].size, images[i].href));
    ImageLineIs(t, images);
    assert found == ImageBlocks(images);
  }

  lemma VideoOnce(t: string, found: seq<ParsedBlock>)
    requires Trimmed(t) && |found| == 1 && VideoIn(t, found[0])
    ensures ParseVideoLine(t).Some? && found == [ParseVideoLine(t).value]
  {
    hide ParseVideoLine, VideoIn;
    VideoRead(t, found[0]);
  }

  lemma ListDecides(lines: seq<string>, found: seq<ParsedBlock>, n: nat)
    requires lines != [] && ParseListMarker(Trim(lines[0])).Some?
    requires if AnyItem(Trim(lines[0]), true) then ListRead(lines, true, found, n) else ListRead(lines, false, found, n)
    ensures (found, n) == ListStep(lines, ParseListMarker(Trim(lines[0])).value.0)
  {
    hide Trim, ParseListMarker, ListRead, ListStep, AnyItem;
    MarkersAre(Trim(lines[0]));
    ListOnce(lines, AnyItem(Trim(lines[0]), true), found, n);
  }

  lemma TrimIsTrimmed(s: string)
    ensures Trimmed(Trim(s))
  {
  }

  /** What the first lines show is what one round of the parser reads. */
  lemma RoundDecides(lines: seq<string>, html: Html, found: seq<ParsedBlock>, n: nat)
    requires lines != [] && RoundReads(lines, html, found, n)
    ensures (found, n) == Step(lines, html)
  {
    hide ParseVideoLine, VideoIn, AnyVideo, CodeStep, CodeRead, ParseHeading, HeadingRead, QuoteStep, QuoteRead,
         IsHorizontalRule, RuleLine, ImageLine, AnyImages, ImagesRead, ParseListMarker, AnyItem, ListStep, ListRead,
         ParagraphStep, ParagraphRead, Trim, IsQuoteLine, ImageBlocks, Trimmed;
    var t := Trim(lines[0]);
    TrimIsTrimmed(lines[0]);
    if t != "" {
      VideosAre(t);
      FirstCharacter(t);
      RuleIs(t);
      ImagesAre(t);
      MarkersAre(t);
      if AnyVideo(t) {
        VideoOnce(t, found);
      } else if "```" <= t {
        CodeOnce(lines, found, n);
      } else if t[0] == '#' {
        HeadingOnce(t, found);
      } else if t[0] == '>' {
        FirstQuote(lines[0]);
        QuoteOnce(lines, found, n);
      } else if RuleLine(t) {
      } else if AnyImages(t) {
        ImagesOnce(t, found);
      } else if ParseListMarker(t).Some? {
        ListDecides(lines, found, n);
      } else {
        ParagraphOnce(lines, html, found, n);
      }
    }
  }

  lemma {:induction false} LinesDecide(lines: seq<string>, html: Html, blocks: seq<ParsedBlock>)
    requires DocumentReads(lines, html, blocks)
    ensures blocks == ParseLines(lines, html)
    decreases |lines|
  {
    hide Step, RoundReads;
    if lines != [] {
      var m, n :|
        && 0 <= m <= |blocks| && 1 <= n <= |lines| && RoundReads(lines, html, blocks[..m], n)
        && DocumentReads(lines[n..], html, blocks[m..]);
      RoundDecides(lines, html, blocks[..m], n);
      LinesDecide(lines[n..], html, blocks[m..]);
      assert blocks == blocks[..m] + blocks[m..];
    }
  }

  /** A text parses to exactly the blocks that its lines show. */
  lemma ParseIff(source: string, html: Html, blocks: seq<ParsedBlock>)
    ensures blocks == Parse(source, html)
       <==> exists lines :: Ended(source, lines) && DocumentReads(lines, html, blocks)
  {
    hide Ended, DocumentReads, Lines, ParseLines;
    ParseReads(source, html);
    if lines :| Ended(source, lines) && DocumentReads(lines, html, blocks) {
      EndedOnce(source, lines);
      LinesDecide(lines, html, blocks);
    }
  }
}
