/** What a text parses to, told by the shapes of its lines: the parser's searches, counters and collectors
do not occur. */
module LineShapes {
  import opened Options
  import opened Blocks
  import opened Text
  import opened TextLaws
  import opened Markdown
  import opened ImageShapes
  import opened VideoLines
  import MarkdownParser
  import RoundTrip

  // ----- the shapes

  ghost predicate RunOf(s: string, n: int, c: char) {
    0 <= n <= |s| && (forall i :: 0 <= i < n ==> s[i] == c) && (n < |s| ==> s[n] != c)
  }

  predicate RuleLine(t: string) {
    |t| >= 3 && forall i :: 0 <= i < |t| ==> t[i] == '-' || t[i] == '_' || t[i] == '*'
  }

  predicate Bulleted(t: string) {
    t != "" && (t[0] == '-' || t[0] == '*' || t[0] == '+')
  }

  /** The number in front of an ordered item has n digits. */
  predicate NumberedBy(t: string, n: nat) {
    1 <= n < |t| && t[n] == '.' && forall i :: 0 <= i < n ==> '0' <= t[i] <= '9'
  }

  /** An item of a list: something must stand behind the marker. */
  ghost predicate ItemIs(t: string, ordered: bool, item: string) {
    item != "" && if ordered then exists n :: NumberedBy(t, n) && item == Trim(t[n + 1..])
                  else Bulleted(t) && item == Trim(t[1..])
  }

  ghost predicate AnyItem(t: string, ordered: bool) {
    exists item :: ItemIs(t, ordered, item)
  }

  /** No paragraph goes on with such a line. */
  ghost predicate Stops(t: string) {
    || t == "" || t[0] == '#' || t[0] == '>' || "```" <= t || RuleLine(t) || AnyItem(t, true) || AnyItem(t, false)
  }

  ghost predicate VideoIn(t: string, b: ParsedBlock) {
    exists secure, host, path, slashes: nat, provider, id ::
      t == Url(secure, host, path, slashes) && Splits(host, path) && Names(host, path, provider, id)
      && b == ParsedBlock(Video, Clip(provider, id, t, Metadata("", "", "", "")))
  }

  ghost predicate AnyVideo(t: string) {
    exists b :: VideoIn(t, b)
  }

  ghost predicate AnyImages(t: string) {
    exists images :: ImagesOnly(t, images)
  }

  // ----- what begins at the first line

  ghost predicate HeadingRead(t: string, found: seq<ParsedBlock>) {
    exists n :: n >= 1 && RunOf(t, n, '#')
                && found == [ParsedBlock(Heading(if n <= 6 then n else 6), Content.Text(Trim(t[n..])))]
  }

  /** One block for each image of the line. */
  ghost predicate ImagesRead(t: string, found: seq<ParsedBlock>) {
    exists images: seq<ParsedImage> ::
      && ImagesOnly(t, images) && |found| == |images|
      && forall i :: 0 <= i < |images| ==>
           found[i] == ParsedBlock(Image, Picture(images[i].src, images[i].alt, images[i].size, images[i].href))
  }

  ghost predicate FenceAt(line: string) { "```" <= TrimStart(line) }

  /** The lines behind the first one, up to a closing fence at m or to the end of the text if there is none. */
  ghost predicate FencedTo(lines: seq<string>, m: int) {
    1 <= m <= |lines| && (forall i :: 1 <= i < m ==> !FenceAt(lines[i])) && (m < |lines| ==> FenceAt(lines[m]))
  }

  ghost predicate CodeRead(lines: seq<string>, found: seq<ParsedBlock>, n: nat)
    requires lines != []
  {
    exists m, k ::
      && FencedTo(lines, m) && RunOf(Trim(lines[0]), k, '`')
      && found == [ParsedBlock(Code, Fenced(Trim(Trim(lines[0])[k..]), Join(lines[1..m], "\n")))]
      && n == if m < |lines| then m + 1 else m
  }

  /** What a quoted line says, however deep it is quoted. */
  ghost predicate Says(line: string, quote: string) {
    exists k :: RunOf(TrimStart(line), k, '>') && quote == Trim(TrimStart(line)[k..])
  }

  predicate QuotedLine(line: string) { ">" <= TrimStart(line) }

  /** The lines from the first non-empty one on, with line feeds between them. */
  ghost predicate Gathered(lines: seq<string>, text: string) {
    exists m :: 0 <= m <= |lines| && (forall i :: 0 <= i < m ==> lines[i] == "") && (m < |lines| ==> lines[m] != "")
                && text == Join(lines[m..], "\n")
  }

  ghost predicate QuoteRead(lines: seq<string>, found: seq<ParsedBlock>, n: nat) {
    exists quotes: seq<string>, text ::
      && 1 <= n == |quotes| <= |lines| && (n < |lines| ==> !QuotedLine(lines[n]))
      && (forall i :: 0 <= i < n ==> QuotedLine(lines[i]) && Says(lines[i], quotes[i]))
      && Gathered(quotes, text) && found == [ParsedBlock(Quote, Content.Text(text))]
  }

  ghost predicate ListRead(lines: seq<string>, ordered: bool, found: seq<ParsedBlock>, n: nat) {
    exists items: seq<string> ::
      && 1 <= n == |items| <= |lines| && (n < |lines| ==> !AnyItem(Trim(lines[n]), ordered))
      && (forall i :: 0 <= i < n ==> ItemIs(Trim(lines[i]), ordered, items[i]))
      && found == [ParsedBlock(List(ordered), Items(items))]
  }

  /** Paragraph lines keep the white space at their start. */
  ghost predicate ParagraphRead(lines: seq<string>, html: Html, found: seq<ParsedBlock>, n: nat) {
    exists ends: seq<string> ::
      && 1 <= n == |ends| <= |lines| && (n < |lines| ==> Stops(Trim(lines[n])))
      && (forall i :: 0 <= i < n ==> !Stops(Trim(lines[i])) && ends[i] == TrimEnd(lines[i]))
      && var text := Join(ends, "\n");
         found == match html(text)
                  case Some(blocks) => blocks
                  case None => [ParsedBlock(Paragraph, Content.Text(text))]
  }

  /** The blocks that begin at the first line, and how many lines they take. */
  ghost predicate RoundReads(lines: seq<string>, html: Html, found: seq<ParsedBlock>, n: nat)
    requires lines != []
  {
    var t := Trim(lines[0]);
    if t == "" then found == [] && n == 1
    else if AnyVideo(t) then |found| == 1 && VideoIn(t, found[0]) && n == 1
    else if "```" <= t then CodeRead(lines, found, n)
    else if t[0] == '#' then HeadingRead(t, found) && n == 1
    else if t[0] == '>' then QuoteRead(lines, found, n)
    else if RuleLine(t) then found == [ParsedBlock(Divider, Empty)] && n == 1
    else if AnyImages(t) then
      ImagesRead(t, found) && n == 1
    else if AnyItem(t, true) then ListRead(lines, true, found, n)
    else if AnyItem(t, false) then ListRead(lines, false, found, n)
    else ParagraphRead(lines, html, found, n)
  }

  /** The blocks of the lines, round by round. */
  ghost predicate DocumentReads(lines: seq<string>, html: Html, blocks: seq<ParsedBlock>)
    decreases |lines|
  {
    if lines == [] then blocks == []
    else exists m, n ::
      && 0 <= m <= |blocks| && 1 <= n <= |lines| && RoundReads(lines, html, blocks[..m], n)
      && DocumentReads(lines[n..], html, blocks[m..])
  }

  // ----- markers

  lemma MarkerTaken(t: string, ordered: bool, item: string)
    requires Trimmed(t) && ParseListMarker(t) == Some((ordered, item))
    ensures ItemIs(t, ordered, item)
  {
    hide Trim, CountDigits;
    if ordered {
      MarkerUnfolds(t);
      var n := CountDigits(t);
      assert t[n..][0] == '.';
      assert NumberedBy(t, n);
    }
  }

  lemma MarkerUnfolds(t: string)
    ensures AfterMarker(t) ==
            if Bulleted(t) then Some((false, t[1..]))
            else if NumberedBy(t, CountDigits(t)) then Some((true, t[CountDigits(t) + 1..])) else None
  {
    hide CountDigits;
    var n := CountDigits(t);
    assert "-" <= t <==> t != "" && t[0] == '-';
    assert "*" <= t <==> t != "" && t[0] == '*';
    assert "+" <= t <==> t != "" && t[0] == '+';
    assert "." <= t[n..] <==> n < |t| && t[n] == '.';
  }

  lemma MarkerRead(t: string, ordered: bool, item: string)
    requires Trimmed(t) && ItemIs(t, ordered, item)
    ensures ParseListMarker(t) == Some((ordered, item))
  {
    hide Trim, CountDigits, AfterMarker;
    MarkerUnfolds(t);
    if ordered {
      var n :| NumberedBy(t, n) && item == Trim(t[n + 1..]);
      DigitsCounted(t, n);
      NoBullet(t, n);
    }
  }

  lemma NoBullet(t: string, n: nat)
    requires NumberedBy(t, n)
    ensures !Bulleted(t)
  {
    assert '0' <= t[0] <= '9';
  }

  lemma DigitsCounted(t: string, n: nat)
    requires NumberedBy(t, n)
    ensures CountDigits(t) == n
  {
    hide CountDigits, IsDigit, NumberedBy;
    var m := CountDigits(t);
    NumberDigits(t, n);
  }

  lemma NumberDigits(t: string, n: nat)
    requires NumberedBy(t, n)
    ensures n < |t| && !IsDigit(t[n]) && forall i :: 0 <= i < n ==> IsDigit(t[i])
  {
  }

  /** The recogniser of markers finds exactly the items. */
  lemma MarkerIs(t: string, ordered: bool, item: string)
    requires Trimmed(t)
    ensures ParseListMarker(t) == Some((ordered, item)) <==> ItemIs(t, ordered, item)
  {
    hide ParseListMarker, ItemIs;
    if ItemIs(t, ordered, item) { MarkerRead(t, ordered, item); }
    if ParseListMarker(t) == Some((ordered, item)) { MarkerTaken(t, ordered, item); }
  }

  lemma ItemLineIs(line: string, ordered: bool)
    ensures IsItemLine(line, ordered) <==> AnyItem(Trim(line), ordered)
  {
    hide ParseListMarker, ItemIs, Trim;
    var t := Trim(line);
    NothingIsNoItem(ordered);
    if IsItemLine(line, ordered) { MarkerIs(t, ordered, ParseListMarker(t).value.1); }
    if item :| ItemIs(t, ordered, item) { MarkerIs(t, ordered, item); }
  }

  lemma NothingIsNoItem(ordered: bool)
    ensures !AnyItem("", ordered)
  {
  }

  lemma RuleIs(t: string)
    ensures IsHorizontalRule(t) <==> RuleLine(t)
  {
    if RuleLine(t) {
      forall c | c in t ensures c == '-' || c == '_' || c == '*' {
        var i :| 0 <= i < |t| && t[i] == c;
      }
    }
    assert forall i :: 0 <= i < |t| ==> t[i] in t;
  }

  lemma MarkersAre(t: string)
    requires Trimmed(t)
    ensures ParseListMarker(t).Some? <==> AnyItem(t, true) || AnyItem(t, false)
    ensures ParseListMarker(t).Some? ==> AnyItem(t, ParseListMarker(t).value.0)
    ensures AnyItem(t, true) ==> ParseListMarker(t).Some? && ParseListMarker(t).value.0
  {
    hide ParseListMarker, ItemIs;
    var m := ParseListMarker(t);
    if m.Some? { MarkerIs(t, m.value.0, m.value.1); }
    if item :| ItemIs(t, true, item) { MarkerIs(t, true, item); }
    if item :| ItemIs(t, false, item) { MarkerIs(t, false, item); }
  }

  lemma BreaksIs(line: string)
    ensures Breaks(line) <==> Stops(Trim(line))
  {
    hide ParseListMarker, AnyItem, Trim, IsHorizontalRule, RuleLine;
    var t := Trim(line);
    RuleIs(t);
    MarkersAre(t);
    assert "#" <= t <==> t != "" && t[0] == '#';
    assert ">" <= t <==> t != "" && t[0] == '>';
  }

  // ----- videos

  lemma VideoTaken(t: string)
    requires Trimmed(t) && ParseVideoLine(t).Some?
    ensures VideoIn(t, ParseVideoLine(t).value)
  {
    hide VideoFromUrl, Names, Lower, Url, Splits;
    assert Trim(t) == t;
    var secure, host, path, slashes := UrlParts(t);
    UrlIs(secure, host, path, slashes);
    var (provider, id) := VideoFromUrl(t).value;
    VideoAtIs(host, path, provider, id);
  }

  lemma VideoRead(t: string, b: ParsedBlock)
    requires Trimmed(t) && VideoIn(t, b)
    ensures ParseVideoLine(t) == Some(b)
  {
    hide VideoFromUrl, Names, Lower, Url, Splits, VideoAt;
    assert Trim(t) == t;
    var secure, host, path, slashes: nat, provider, id :|
      t == Url(secure, host, path, slashes) && Splits(host, path) && Names(host, path, provider, id)
      && b == ParsedBlock(Video, Clip(provider, id, t, Metadata("", "", "", "")));
    UrlIs(secure, host, path, slashes);
    VideoAtIs(host, path, provider, id);
  }

  // ----- collecting lines

  lemma {:induction false} CollectGathers(lines: seq<string>)
    ensures Gathered(lines, Collect(lines))
  {
    hide Gathered;
    if lines == [] {
      NothingGathered();
    } else {
      var n := |lines| - 1;
      CollectGathers(lines[..n]);
      CollectOne(lines);
      GatherOne(lines[..n], lines[n], Collect(lines[..n]));
      assert lines == lines[..n] + [lines[n]];
    }
  }

  lemma NothingGathered()
    ensures Gathered([], "") && Collect([]) == ""
  {
    var none: seq<string> := [];
    assert none[0..] == none && Join(none, "\n") == "";
  }

  lemma GatherOne(front: seq<string>, last: string, text: string)
    requires Gathered(front, text)
    ensures Gathered(front + [last], (if text == "" then "" else text + "\n") + last)
  {
    hide Join;
    var lines := front + [last];
    var m :| 0 <= m <= |front| && (forall i :: 0 <= i < m ==> front[i] == "") && (m < |front| ==> front[m] != "")
             && text == Join(front[m..], "\n");
    if m == |front| {
      OneGathered(front, last, text);
    } else {
      assert lines[m..] == front[m..] + [last];
      MarkdownParser.JoinSnoc(front[m..], last, "\n");
      JoinNonEmpty(front[m..]);
    }
  }

  lemma OneGathered(front: seq<string>, last: string, text: string)
    requires forall i :: 0 <= i < |front| ==> front[i] == ""
    requires text == Join(front[|front|..], "\n")
    ensures text == "" && Gathered(front + [last], last)
  {
    var lines, n := front + [last], |front|;
    assert text == "";
    if last == "" {
      assert lines[n + 1..] == [];
    } else {
      assert lines[n..] == [last];
    }
  }

  lemma CollectOne(lines: seq<string>)
    requires lines != []
    ensures var front := Collect(lines[..|lines| - 1]);
            Collect(lines) == (if front == "" then "" else front + "\n") + lines[|lines| - 1]
  {
  }

  lemma JoinNonEmpty(lines: seq<string>)
    requires lines != [] && lines[0] != ""
    ensures Join(lines, "\n") != ""
  {
  }

  // ----- one round

  lemma CodeReads(lines: seq<string>)
    requires lines != []
    ensures CodeRead(lines, CodeStep(lines).0, CodeStep(lines).1)
  {
    hide Trim, TrimStart, Join, StripLeading, Span;
    var m := Span(lines[1..], IsCodeLine) + 1;
    var k := StripIs(Trim(lines[0]), '`');
    SpanIsFenced(lines);
    assert FencedTo(lines, m) && RunOf(Trim(lines[0]), k, '`');
  }

  lemma SpanIsFenced(lines: seq<string>)
    requires lines != []
    ensures FencedTo(lines, Span(lines[1..], IsCodeLine) + 1)
  {
    hide TrimStart, Span;
    var m := Span(lines[1..], IsCodeLine) + 1;
    forall i | 1 <= i < m ensures !FenceAt(lines[i]) {
      assert IsCodeLine(lines[1..][i - 1]);
    }
    if m < |lines| { assert !IsCodeLine(lines[1..][m - 1]); }
  }

  lemma QuoteSays(line: string)
    ensures Says(line, QuoteOf(line))
  {
    hide Trim, TrimStart, StripLeading;
    var k := StripIs(TrimStart(line), '>');
  }

  lemma QuoteReads(lines: seq<string>)
    requires lines != [] && IsQuoteLine(lines[0])
    ensures QuoteRead(lines, QuoteStep(lines).0, QuoteStep(lines).1)
  {
    hide QuoteOf, TrimStart, Span, Collect, Gathered, Says;
    var n := Span(lines, IsQuoteLine);
    var quotes := QuotesOf(lines[..n]);
    CollectGathers(quotes);
    forall i | 0 <= i < n ensures QuotedLine(lines[i]) && Says(lines[i], quotes[i]) {
      assert IsQuoteLine(lines[i]);
      QuoteSays(lines[i]);
    }
  }

  lemma ListReads(lines: seq<string>, ordered: bool)
    requires lines != [] && IsItemLine(lines[0], ordered)
    ensures ListRead(lines, ordered, ListStep(lines, ordered).0, ListStep(lines, ordered).1)
  {
    hide Trim, IsItemLine, ItemIs, Span, ParseListMarker;
    var n := 1 + Span(lines[1..], l => IsItemLine(l, ordered));
    var items := ItemsOf(lines[..n]);
    forall i | 0 <= i < n ensures ItemIs(Trim(lines[i]), ordered, items[i]) {
      if i > 0 { assert IsItemLine(lines[1..][i - 1], ordered); }
      ItemOf(lines[i], ordered);
    }
    if n < |lines| {
      assert !IsItemLine(lines[1..][n - 1], ordered);
      ItemLineIs(lines[n], ordered);
    }
  }

  lemma ItemOf(line: string, ordered: bool)
    requires IsItemLine(line, ordered)
    ensures ParseListMarker(Trim(line)).Some? && ItemIs(Trim(line), ordered, ParseListMarker(Trim(line)).value.1)
  {
    hide Trim, ParseListMarker, ItemIs;
    MarkerIs(Trim(line), ordered, ParseListMarker(Trim(line)).value.1);
  }

  lemma FullLine(line: string)
    requires !Breaks(line)
    ensures TrimEnd(line) != ""
  {
    hide ParseListMarker, IsHorizontalRule;
    TrimOfTrimEnd(line);
  }

  lemma ParagraphReads(lines: seq<string>, html: Html)
    requires lines != [] && IsParagraphLine(lines[0])
    ensures ParagraphRead(lines, html, ParagraphStep(lines, html).0, ParagraphStep(lines, html).1)
  {
    hide Trim, TrimEnd, Breaks, Stops, Span, Collect, Join;
    var n := Span(lines, IsParagraphLine);
    var ends := EndsTrimmed(lines[..n]);
    forall i | 0 <= i < n ensures !Stops(Trim(lines[i])) && ends[i] == TrimEnd(lines[i]) && ends[i] != "" {
      assert IsParagraphLine(lines[i]);
      BreaksIs(lines[i]);
      FullLine(lines[i]);
    }
    if n < |lines| {
      assert !IsParagraphLine(lines[n]);
      BreaksIs(lines[n]);
    }
    RoundTrip.CollectIsJoin(ends);
  }

  lemma HeadingReads(t: string)
    requires t != "" && t[0] == '#'
    ensures ParseHeading(t).Some?
    ensures var (level, text) := ParseHeading(t).value;
            HeadingRead(t, [ParsedBlock(Heading(level), Content.Text(text))])
  {
    hide Trim, CountLeading;
    assert RunOf(t, CountLeading(t, '#'), '#');
  }

  lemma ImagesAre(t: string)
    ensures ImageLine(t).Some? <==> AnyImages(t)
    ensures ImageLine(t).Some? ==> ImagesRead(t, ImageBlocks(ImageLine(t).value))
  {
    hide ImageLine, ImagesOnly;
    if ImageLine(t).Some? { ImageLineIs(t, ImageLine(t).value); }
    if images :| ImagesOnly(t, images) { ImageLineIs(t, images); }
  }

  lemma VideosAre(t: string)
    requires Trimmed(t)
    ensures ParseVideoLine(t).Some? <==> AnyVideo(t)
    ensures ParseVideoLine(t).Some? ==> VideoIn(t, ParseVideoLine(t).value)
  {
    hide ParseVideoLine, VideoIn;
    if ParseVideoLine(t).Some? { VideoTaken(t); }
    if b :| VideoIn(t, b) { VideoRead(t, b); }
  }

  lemma FirstCharacter(t: string)
    requires t != ""
    ensures ParseHeading(t).Some? <==> t[0] == '#'
    ensures ">" <= t <==> t[0] == '>'
  {
    assert "#" <= t <==> t[0] == '#';
    hide ParseHeading;
  }

  lemma FirstQuote(line: string)
    requires ">" <= Trim(line)
    ensures IsQuoteLine(line)
  {
    PrefixOfTrim(">", line);
  }

  lemma FirstItemLine(line: string)
    requires ParseListMarker(Trim(line)).Some?
    ensures IsItemLine(line, ParseListMarker(Trim(line)).value.0)
  {
    hide Trim, ParseListMarker;
    var t := Trim(line);
    MarkersAre(t);
    ItemLineIs(line, ParseListMarker(t).value.0);
  }

  lemma ListIs(lines: seq<string>)
    requires lines != [] && ParseListMarker(Trim(lines[0])).Some?
    ensures var t, r := Trim(lines[0]), ListStep(lines, ParseListMarker(Trim(lines[0])).value.0);
            if AnyItem(t, true) then ListRead(lines, true, r.0, r.1)
            else AnyItem(t, false) && ListRead(lines, false, r.0, r.1)
  {
    hide Trim, ParseListMarker, ListRead, ListStep, AnyItem, IsItemLine;
    MarkersAre(Trim(lines[0]));
    FirstItemLine(lines[0]);
    ListReads(lines, ParseListMarker(Trim(lines[0])).value.0);
  }

  lemma ParagraphIs(lines: seq<string>, html: Html)
    requires lines != [] && IsParagraphLine(lines[0])
    ensures var t, r := Trim(lines[0]), ParagraphStep(lines, html);
            !AnyItem(t, true) && !AnyItem(t, false) && ParagraphRead(lines, html, r.0, r.1)
  {
    hide Trim, ParseListMarker, ParagraphRead, ParagraphStep, AnyItem, Breaks;
    BreaksIs(lines[0]);
    ParagraphReads(lines, html);
  }

  /** One round of the parser reads what the first lines show. */
  lemma StepReads(lines: seq<string>, html: Html)
    requires lines != []
    ensures RoundReads(lines, html, Step(lines, html).0, Step(lines, html).1)
  {
    hide ParseVideoLine, VideoIn, AnyVideo, CodeStep, CodeRead, ParseHeading, HeadingRead, QuoteStep, QuoteRead,
         IsHorizontalRule, RuleLine, ImageLine, AnyImages, ImagesRead, ParseListMarker, AnyItem, ListStep, ListRead,
         ParagraphStep, ParagraphRead, Trim, IsQuoteLine, ImageBlocks;
    var t := Trim(lines[0]);
    if t != "" {
      VideosAre(t);
      FirstCharacter(t);
      RuleIs(t);
      ImagesAre(t);
      if ParseVideoLine(t).Some? {
      } else if "```" <= t {
        CodeReads(lines);
      } else if ParseHeading(t).Some? {
        HeadingReads(t);
      } else if ">" <= t {
        FirstQuote(lines[0]);
        QuoteReads(lines);
      } else if IsHorizontalRule(t) || ImageLine(t).Some? {
      } else if ParseListMarker(t).Some? {
        ListIs(lines);
      } else {
        ParagraphIs(lines, html);
      }
    }
  }

  /** The parser reads the whole text that way, round after round. */
  lemma {:induction false} LinesRead(lines: seq<string>, html: Html)
    ensures DocumentReads(lines, html, ParseLines(lines, html))
    decreases |lines|
  {
    hide Step, RoundReads;
    if lines != [] {
      var (found, n) := Step(lines, html);
      var rest := ParseLines(lines[n..], html);
      StepReads(lines, html);
      LinesRead(lines[n..], html);
      assert (found + rest)[..|found|] == found && (found + rest)[|found|..] == rest;
    }
  }

  /** What a text parses to. */
  lemma ParseReads(source: string, html: Html)
    ensures exists lines :: Ended(source, lines) && DocumentReads(lines, html, Parse(source, html))
  {
    hide Ended, DocumentReads, Lines, ParseLines;
    LinesEnd(source);
    LinesRead(Lines(source), html);
  }
}
