/** What the parser produces can be printed and parsed again. */
module Reparse {
  import opened Options
  import opened Blocks
  import opened Text
  import opened Markdown
  import opened MarkdownParser
  import opened MarkdownPrinter
  import opened RoundTrip

  /** A line without line feeds and carriage returns. */
  predicate Clean(s: string) {
    '\n' !in s && '\r' !in s
  }

  ghost predicate AllClean(lines: seq<string>) {
    forall i :: 0 <= i < |lines| ==> Clean(lines[i])
  }

  /** The recogniser that finds no raw HTML anywhere. */
  function NoHtml(): Html {
    (_: string) => None
  }

  /** The one way out: a fence language that itself starts with a backtick. */
  predicate Backticked(b: ParsedBlock) {
    b.kind.Code? && b.content.Fenced? && "`" <= b.content.language && FencedFields(b.content.language, b.content.code)
  }

  ghost predicate Survives(b: ParsedBlock, html: Html) {
    Printable(b, html) || Backticked(b)
  }

  lemma TrimIsClean(s: string)
    requires Clean(s)
    ensures Clean(Trim(s)) && Clean(TrimEnd(s))
  {
    TrimKeeps(s, '\n');
    TrimKeeps(s, '\r');
  }

  lemma SliceIsClean(s: string, i: nat, j: nat)
    requires Clean(s) && i <= j <= |s|
    ensures Clean(s[i..j])
  {
  }

  // ----- headings, lists, videos

  lemma HeadingSurvives(t: string)
    requires Clean(t) && ParseHeading(t).Some?
    ensures var (level, text) := ParseHeading(t).value; 1 <= level <= 6 && OneLine(text) && Trimmed(text)
  {
    var k := CountLeading(t, '#');
    SliceIsClean(t, k, |t|);
    TrimIsClean(t[k..]);
  }

  lemma MarkerSurvives(t: string)
    requires Clean(t) && ParseListMarker(t).Some?
    ensures var item := ParseListMarker(t).value.1; OneLine(item) && Trimmed(item) && item != ""
  {
    hide CountDigits, Trim;
    var l := Trim(t);
    TrimIsClean(t);
    var rest := AfterMarker(l).value.1;
    assert Clean(rest);
    TrimIsClean(rest);
  }

  lemma VideoSurvives(t: string, html: Html)
    requires Clean(t) && ParseVideoLine(t).Some?
    ensures Printable(ParseVideoLine(t).value, html)
  {
    hide VideoFromUrl, Trim;
    TrimIsClean(t);
  }

  // ----- images

  lemma SplitSizeFields(a: string)
    requires Address(a) && a != "" && SplitImageSize(a).0 != ""
    ensures var (src, size) := SplitImageSize(a);
            Address(src) && (if size == "" then SplitImageSize(src) == (src, "") else IsValidSize(size))
  {
    var eq := FindLast(a, '=');
    if eq.Some? {
      var before := a[..eq.value];
      var src := TrimEnd(before);
      if src != "" { assert src[0] == a[0]; }
    }
  }

  lemma PlainImageFields(s: string)
    requires Clean(s) && ParsePlainImage(s).Some?
    ensures var img := ParsePlainImage(s).value; PrintableImage(img.src, img.alt, img.size, "")
  {
    hide SplitImageSize, IsValidSize, Trim;
    var rest := s[1..];
    var close := Find(rest, ']').value;
    var round := rest[close + 1..];
    var after := TrimStart(round);
    TrimStartKeeps(round, '\n');
    var inside := after[1..];
    var end := Find(inside, ')').value;
    var a := inside[..end];
    TrimKeeps(a, '\n');
    TrimKeeps(a, ')');
    TrimIsTrimmed(a);
    SplitSizeFields(Trim(a));
    assert rest[1..close] == rest[..close][1..];
    assert Address("");
  }

  lemma ImageFields(s: string)
    requires Clean(s) && ParseImage(s).Some?
    ensures var img := ParseImage(s).value; PrintableImage(img.src, img.alt, img.size, img.href)
  {
    hide ParsePlainImage, SplitImageSize, IsValidSize, Trim;
    if "[" <= s {
      var inner := s[1..];
      PlainImageFields(inner);
      var tail := inner[ParsePlainImage(inner).value.consumed..];
      var h := tail[2..][..Find(tail[2..], ')').value];
      TrimKeeps(h, '\n');
      TrimKeeps(h, ')');
      TrimIsTrimmed(h);
    } else {
      PlainImageFields(s);
      NoLink(s);
    }
  }

  lemma NoLink(s: string)
    requires ParsePlainImage(s).Some?
    ensures ParsePlainImage(s).value.href == ""
  {
    hide SplitImageSize, Trim, TrimStart, Find;
  }

  lemma {:induction false} ImagesSurvive(s: string)
    requires Clean(s)
    ensures forall i :: 0 <= i < |ImageRun(s).0| ==>
              var img := ImageRun(s).0[i]; PrintableImage(img.src, img.alt, img.size, img.href)
    decreases |s|
  {
    hide ParseImage, PrintableImage, TrimStart;
    var img := ParseImage(s);
    if img.Some? {
      ImageFields(s);
      var tail := s[img.value.consumed..];
      TrimStartKeeps(tail, '\n');
      TrimStartKeeps(tail, '\r');
      ImagesSurvive(TrimStart(tail));
    }
  }

  lemma ImageLineSurvives(t: string, html: Html)
    requires Clean(t) && ImageLine(t).Some?
    ensures forall b :: b in ImageBlocks(ImageLine(t).value) ==> Printable(b, html)
  {
    hide ImageRun, PrintableImage;
    ImagesSurvive(t);
    var images := ImageLine(t).value;
    forall b | b in ImageBlocks(images) ensures Printable(b, html) {
      var i :| 0 <= i < |images| && b == ImageBlock(images[i]);
    }
  }

  // ----- multi-line blocks

  /** Collecting lines drops the leading empty ones. */
  lemma {:induction false} CollectDrops(lines: seq<string>) returns (k: nat)
    ensures k <= |lines| && (k < |lines| ==> lines[k] != "")
    ensures Collect(lines) == if k == |lines| then "" else Join(lines[k..], "\n")
    ensures k < |lines| ==> Collect(lines) != ""
  {
    if lines == [] {
      k := 0;
    } else {
      var n := |lines| - 1;
      k := CollectDrops(lines[..n]);
      if k == n {
        if lines[n] == "" { k := |lines|; }
      } else {
        JoinSnoc(lines[..n][k..], lines[n], "\n");
        assert lines[k..] == lines[..n][k..] + [lines[n]];
      }
    }
  }

  lemma JoinFirst(lines: seq<string>)
    requires lines != [] && lines[0] != ""
    ensures Join(lines, "\n") != "" && Join(lines, "\n")[0] == lines[0][0]
  {
  }

  lemma QuoteSurvives(qs: seq<string>)
    requires forall i :: 0 <= i < |qs| ==> OneLine(qs[i]) && Trimmed(qs[i])
    ensures PrintableQuote(Collect(qs))
  {
    hide Trimmed, Split, Join, Collect;
    var k := CollectDrops(qs);
    if k == |qs| {
      SplitFirst("", '\n');
      assert Trimmed("") by { TrimIsTrimmed(""); TrimPadded("", ""); }
    } else {
      JoinFirst(qs[k..]);
      assert qs[k][0] in qs[k];
      JoinLf(qs[k..]);
    }
  }

  lemma QuoteLineClean(l: string)
    requires Clean(l)
    ensures OneLine(QuoteOf(l)) && Trimmed(QuoteOf(l))
  {
    hide Trimmed;
    TrimStartKeeps(l, '\n');
    StripKeeps(TrimStart(l), '>', '\n');
    TrimKeeps(StripLeading(TrimStart(l), '>'), '\n');
    TrimIsTrimmed(StripLeading(TrimStart(l), '>'));
  }

  lemma CodeSurvives(lines: seq<string>)
    requires AllClean(lines) && forall i :: 0 <= i < |lines| ==> IsCodeLine(lines[i])
    ensures forall l :: l in Split(Join(lines, "\n"), '\n') ==> !IsFence(l) && !EndsInReturn(l)
  {
    hide Split, IsFence;
    if lines == [] {
      SplitFirst("", '\n');
      EmptyNotFence();
    } else {
      JoinLf(lines);
      forall i | 0 <= i < |lines| ensures !EndsInReturn(lines[i]) {
        assert Clean(lines[i]);
      }
    }
  }

  lemma EmptyNotFence()
    ensures !IsFence("")
  {
  }

  lemma LanguageSurvives(l: string)
    requires Clean(l)
    ensures var language := Trim(StripLeading(Trim(l), '`')); OneLine(language) && Trimmed(language)
  {
    hide Trimmed;
    TrimKeeps(l, '\n');
    StripKeeps(Trim(l), '`', '\n');
    TrimKeeps(StripLeading(Trim(l), '`'), '\n');
    TrimIsTrimmed(StripLeading(Trim(l), '`'));
  }

  lemma ParagraphSurvives(lines: seq<string>)
    requires lines != [] && AllClean(lines)
    requires forall i :: 0 <= i < |lines| ==> !Breaks(lines[i])
    requires ParseVideoLine(Trim(lines[0])).None? && ImageLine(Trim(lines[0])).None?
    ensures PrintableParagraph(Collect(EndsTrimmed(lines)), NoHtml())
  {
    hide ParseVideoLine, ImageLine, Split, Collect, ParseListMarker, IsHorizontalRule, Trim, TrimEnd;
    var ls := EndsTrimmed(lines);
    forall i | 0 <= i < |ls|
      ensures Clean(ls[i]) && TrimEnd(ls[i]) == ls[i] && !Breaks(ls[i]) && Trim(ls[i]) == Trim(lines[i])
    {
      assert Clean(lines[i]) && !Breaks(lines[i]);
      TrimIsClean(lines[i]);
      TrimOfTrimEnd(lines[i]);
      TrimEndTwice(lines[i]);
    }
    assert ls[0] != "" by { BlankLine(); }
    CollectIsJoin(ls);
    JoinLf(ls);
  }

  lemma TrimEndTwice(s: string)
    ensures TrimEnd(TrimEnd(s)) == TrimEnd(s)
  {
  }

  // ----- every round

  lemma SpanClean(lines: seq<string>, i: nat, j: nat)
    requires AllClean(lines) && i <= j <= |lines|
    ensures AllClean(lines[i..j])
  {
    hide Clean;
    forall k | 0 <= k < j - i ensures Clean(lines[i..j][k]) {
      assert lines[i..j][k] == lines[i + k];
    }
  }

  lemma CodeStepSurvives(lines: seq<string>, html: Html)
    requires lines != [] && AllClean(lines)
    ensures forall b :: b in CodeStep(lines).0 ==> Survives(b, html)
  {
    hide Trim, IsFence, Split, Trimmed, Clean;
    var n := Span(lines[1..], IsCodeLine);
    var body := lines[1..1 + n];
    SpanClean(lines, 1, 1 + n);
    assert Clean(lines[0]);
    LanguageSurvives(lines[0]);
    forall i | 0 <= i < |body| ensures IsCodeLine(body[i]) {
      assert body[i] == lines[1..][i];
    }
    CodeSurvives(body);
  }

  lemma QuoteStepSurvives(lines: seq<string>, html: Html)
    requires lines != [] && AllClean(lines) && IsQuoteLine(lines[0])
    ensures forall b :: b in QuoteStep(lines).0 ==> Printable(b, html)
  {
    hide QuoteOf, Collect, PrintableQuote, IsQuoteLine, Trimmed, Clean;
    var n := Span(lines, IsQuoteLine);
    var qs := QuotesOf(lines[..n]);
    forall i | 0 <= i < |qs| ensures OneLine(qs[i]) && Trimmed(qs[i]) {
      assert Clean(lines[i]) && lines[..n][i] == lines[i];
      QuoteLineClean(lines[i]);
    }
    QuoteSurvives(qs);
  }

  lemma ItemSurvives(line: string, ordered: bool)
    requires Clean(line) && IsItemLine(line, ordered)
    ensures var item := ParseListMarker(Trim(line)).value.1; OneLine(item) && Trimmed(item) && item != ""
  {
    hide ParseListMarker, Trim, Trimmed, OneLine, Clean;
    TrimIsClean(line);
    MarkerSurvives(Trim(line));
  }

  lemma ItemsSurvive(lines: seq<string>, ordered: bool)
    requires lines != [] && AllClean(lines) && forall i :: 0 <= i < |lines| ==> IsItemLine(lines[i], ordered)
    ensures PrintableItems(ItemsOf(lines))
  {
    hide ParseListMarker, Trim, Trimmed, OneLine, Clean;
    var items := ItemsOf(lines);
    forall i | 0 <= i < |items| ensures OneLine(items[i]) && Trimmed(items[i]) && items[i] != "" {
      assert Clean(lines[i]) && IsItemLine(lines[i], ordered);
      ItemSurvives(lines[i], ordered);
    }
  }

  lemma ListStepSurvives(lines: seq<string>, ordered: bool, html: Html)
    requires lines != [] && AllClean(lines) && IsItemLine(lines[0], ordered)
    ensures forall b :: b in ListStep(lines, ordered).0 ==> Printable(b, html)
  {
    hide Clean, IsItemLine, ItemsOf, PrintableItems, Printable;
    var n := 1 + Span(lines[1..], l => IsItemLine(l, ordered));
    SpanClean(lines, 0, n);
    assert lines[0..n] == lines[..n];
    forall i | 0 <= i < n ensures IsItemLine(lines[..n][i], ordered) {
      if i > 0 { assert lines[1..][i - 1] == lines[i]; }
    }
    hide AllClean, Span;
    ItemsSurvive(lines[..n], ordered);
    ItemsPrintable(ordered, ItemsOf(lines[..n]), html);
  }

  lemma ItemsPrintable(ordered: bool, items: seq<string>, html: Html)
    requires PrintableItems(items)
    ensures Printable(ParsedBlock(List(ordered), Items(items)), html)
  {
  }

  lemma ParagraphStepSurvives(lines: seq<string>)
    requires lines != [] && AllClean(lines) && IsParagraphLine(lines[0])
    requires ParseVideoLine(Trim(lines[0])).None? && ImageLine(Trim(lines[0])).None?
    ensures forall b :: b in ParagraphStep(lines, NoHtml()).0 ==> Printable(b, NoHtml())
  {
    hide Breaks, ParseVideoLine, ImageLine, Collect, PrintableParagraph, Trim, Clean;
    var n := Span(lines, IsParagraphLine);
    SpanClean(lines, 0, n);
    assert lines[0..n] == lines[..n];
    forall i | 0 <= i < n ensures !Breaks(lines[..n][i]) {
      assert IsParagraphLine(lines[i]);
    }
    ParagraphSurvives(lines[..n]);
  }

  lemma StepSurvives(lines: seq<string>)
    requires lines != [] && AllClean(lines)
    ensures forall b :: b in Step(lines, NoHtml()).0 ==> Survives(b, NoHtml())
  {
    hide ParseVideoLine, ParseHeading, CodeStep, QuoteStep, ListStep, ParagraphStep, IsHorizontalRule, ImageLine,
         ParseListMarker, Trim, Clean, PrintableParagraph, Backticked, PrintableImage;
    var t := Trim(lines[0]);
    assert Clean(lines[0]);
    TrimIsClean(lines[0]);
    if t == "" {
    } else if ParseVideoLine(t).Some? {
      VideoSurvives(t, NoHtml());
    } else if "```" <= t {
      CodeStepSurvives(lines, NoHtml());
    } else if ParseHeading(t).Some? {
      HeadingSurvives(t);
    } else if ">" <= t {
      PrefixOfTrim(">", lines[0]);
      QuoteStepSurvives(lines, NoHtml());
    } else if IsHorizontalRule(t) {
    } else if ImageLine(t).Some? {
      ImageLineSurvives(t, NoHtml());
    } else if ParseListMarker(t).Some? {
      ListStepSurvives(lines, ParseListMarker(t).value.0, NoHtml());
    } else {
      ParagraphStepSurvives(lines);
    }
  }

  lemma {:induction false} LinesSurvive(lines: seq<string>)
    requires AllClean(lines)
    ensures forall b :: b in ParseLines(lines, NoHtml()) ==> Survives(b, NoHtml())
  {
    hide Step, Survives, Clean, NoHtml;
    if lines != [] {
      StepSurvives(lines);
      var n := Step(lines, NoHtml()).1;
      SpanClean(lines, n, |lines|);
      assert lines[n..|lines|] == lines[n..];
      LinesSurvive(lines[n..]);
    }
  }

  // ----- raw HTML: parsing with a recogniser is parsing without one, then converting paragraphs

  predicate Taken(b: ParsedBlock, html: Html) {
    b.kind.Paragraph? && b.content.Text? && html(b.content.text).Some?
  }

  function Converted(b: ParsedBlock, html: Html): seq<ParsedBlock> {
    if Taken(b, html) then html(b.content.text).value else [b]
  }

  function ConvertedAll(bs: seq<ParsedBlock>, html: Html): seq<ParsedBlock> {
    if bs == [] then [] else Converted(bs[0], html) + ConvertedAll(bs[1..], html)
  }

  lemma ConvertedOne(b: ParsedBlock, html: Html)
    ensures ConvertedAll([b], html) == Converted(b, html)
  {
    assert [b][1..] == [];
  }

  lemma ConvertedCons(b: ParsedBlock, bs: seq<ParsedBlock>, html: Html)
    ensures ConvertedAll([b] + bs, html) == Converted(b, html) + ConvertedAll(bs, html)
  {
    hide Converted;
    assert ([b] + bs)[1..] == bs;
  }

  lemma Regroup(a: seq<ParsedBlock>, b: seq<ParsedBlock>, c: seq<ParsedBlock>)
    ensures a + b + c == a + (b + c)
  {
  }

  lemma {:induction false} ConvertedConcat(bs: seq<ParsedBlock>, cs: seq<ParsedBlock>, html: Html)
    ensures ConvertedAll(bs + cs, html) == ConvertedAll(bs, html) + ConvertedAll(cs, html)
  {
    hide Converted, ConvertedAll;
    if bs == [] {
      NothingConverted([], html);
      assert bs + cs == cs;
    } else {
      var b, rest := bs[0], bs[1..];
      assert bs == [b] + rest;
      ConvertedConcat(rest, cs, html);
      ConvertedCons(b, rest, html);
      ConvertedCons(b, rest + cs, html);
      Regroup([b], rest, cs);
      Regroup(Converted(b, html), ConvertedAll(rest, html), ConvertedAll(cs, html));
    }
  }

  lemma {:induction false} NothingConverted(bs: seq<ParsedBlock>, html: Html)
    requires forall b :: b in bs ==> !b.kind.Paragraph?
    ensures ConvertedAll(bs, html) == bs
  {
    if bs != [] {
      assert bs[0] in bs;
      NothingConverted(bs[1..], html);
      assert bs == [bs[0]] + bs[1..];
    }
  }

  lemma {:induction false} ConvertedIn(bs: seq<ParsedBlock>, html: Html, c: ParsedBlock)
    ensures c in ConvertedAll(bs, html) <==> exists b :: b in bs && c in Converted(b, html)
  {
    hide Converted;
    if bs != [] {
      ConvertedIn(bs[1..], html, c);
      assert bs == [bs[0]] + bs[1..];
    }
  }

  lemma ParagraphConverts(lines: seq<string>, html: Html)
    requires lines != [] && IsParagraphLine(lines[0])
    ensures ParagraphStep(lines, html)
         == (ConvertedAll(ParagraphStep(lines, NoHtml()).0, html), ParagraphStep(lines, NoHtml()).1)
  {
    hide Breaks, Collect, EndsTrimmed;
    var text := Collect(EndsTrimmed(lines[..Span(lines, IsParagraphLine)]));
    ConvertedOne(ParsedBlock(Paragraph, Content.Text(text)), html);
  }

  /** The recogniser acts on the last branch of a round only. */
  lemma StepConverts(lines: seq<string>, html: Html)
    requires lines != []
    ensures Step(lines, html) == (ConvertedAll(Step(lines, NoHtml()).0, html), Step(lines, NoHtml()).1)
  {
    hide ParseVideoLine, ParseHeading, CodeStep, QuoteStep, ListStep, ParagraphStep, IsHorizontalRule, ImageLine,
         ParseListMarker, Trim, NoHtml, ConvertedAll;
    var t, bs := Trim(lines[0]), Step(lines, NoHtml()).0;
    if t != "" && ParseVideoLine(t).None? && !("```" <= t) && ParseHeading(t).None? && !(">" <= t)
       && !IsHorizontalRule(t) && ImageLine(t).None? && ParseListMarker(t).None? {
      ParagraphConverts(lines, html);
    } else {
      KindsOfStep(lines, html);
      NothingConverted(bs, html);
    }
  }

  /** Every other branch ignores the recogniser and yields no paragraph. */
  lemma KindsOfStep(lines: seq<string>, html: Html)
    requires lines != []
    requires var t := Trim(lines[0]);
             || t == "" || ParseVideoLine(t).Some? || "```" <= t || ParseHeading(t).Some? || ">" <= t
             || IsHorizontalRule(t) || ImageLine(t).Some? || ParseListMarker(t).Some?
    ensures Step(lines, html) == Step(lines, NoHtml())
    ensures forall b :: b in Step(lines, NoHtml()).0 ==> !b.kind.Paragraph?
  {
    hide VideoFromUrl, Trim, IsHorizontalRule, ImageRun, ParseListMarker, StartsImage, Span, Collect, ItemsOf, QuotesOf;
  }

  /** A recogniser of raw HTML changes what is parsed by converting the paragraphs it takes, and in no other
      way. */
  lemma {:induction false} LinesConvert(lines: seq<string>, html: Html)
    ensures ParseLines(lines, html) == ConvertedAll(ParseLines(lines, NoHtml()), html)
  {
    hide Step, ConvertedAll, NoHtml;
    if lines == [] {
      NothingConverted([], html);
    } else {
      var (bs, n) := Step(lines, NoHtml());
      StepConverts(lines, html);
      LinesConvert(lines[n..], html);
      ConvertedConcat(bs, ParseLines(lines[n..], NoHtml()), html);
    }
  }

  lemma RecogniserConverts(source: string, html: Html)
    ensures Parse(source, html) == ConvertedAll(Parse(source, NoHtml()), html)
  {
    LinesConvert(Lines(source), html);
  }

  /** Whatever the recogniser makes of a paragraph among these blocks survives. */
  ghost predicate Tame(bs: seq<ParsedBlock>, html: Html) {
    forall b, c :: b in bs && Taken(b, html) && c in Converted(b, html) ==> Survives(c, html)
  }

  lemma UntakenSurvives(b: ParsedBlock, html: Html)
    requires Survives(b, NoHtml()) && !Taken(b, html)
    ensures Survives(b, html) && Converted(b, html) == [b]
  {
    hide Split, Trim, TrimEnd, Breaks, VideoFromUrl, ImageLine, PrintableImage, PrintableItems, FencedFields;
  }

  // ----- whole sources

  /** Source whose lines hold no carriage return; either line end may be used. */
  ghost predicate CleanSource(source: string) {
    forall l :: l in Lines(source) ==> '\r' !in l
  }

  lemma LinesClean(s: string)
    requires CleanSource(s)
    ensures AllClean(Lines(s))
  {
    hide Split;
    SplitParts(s, '\n');
    var parts := Split(s, '\n');
    forall i | 0 <= i < |Lines(s)| ensures Clean(Lines(s)[i]) {
      assert parts[i] in parts && Lines(s)[i] in Lines(s);
    }
  }

  /** On clean source every parsed block is printable or a fence whose language starts with a backtick, exactly
      when this holds of what the recogniser made of the paragraphs it took. */
  lemma ParsedSurvives(source: string, html: Html)
    requires CleanSource(source)
    ensures (forall b :: b in Parse(source, html) ==> Survives(b, html)) <==> Tame(Parse(source, NoHtml()), html)
  {
    hide Survives, Lines, CleanSource, ParseLines, NoHtml, Taken, Converted, ConvertedAll;
    var bs := Parse(source, NoHtml());
    LinesClean(source);
    LinesSurvive(Lines(source));
    RecogniserConverts(source, html);
    forall b, c | b in bs && c in Converted(b, html)
      ensures c in Parse(source, html) && (Taken(b, html) || Survives(c, html))
    {
      ConvertedIn(bs, html, c);
      if !Taken(b, html) { UntakenSurvives(b, html); }
    }
    forall c | c in Parse(source, html) ensures exists b :: b in bs && c in Converted(b, html) {
      ConvertedIn(bs, html, c);
    }
  }

  // ----- when a second pass changes nothing

  /** A backtick fence reads back with a shorter language. */
  lemma BacktickFenceShrinks(b: ParsedBlock, rest: seq<string>, html: Html)
    requires Backticked(b)
    ensures var (blocks, n) := Step(BlockLines(b) + rest, html); |blocks| == 1 && blocks[0] != b
  {
    hide Split, ParseVideoLine, ImageLine, ParseListMarker, CodeStep, EndsInReturn, IsFence, Trim, Trimmed;
    var language := b.content.language;
    var first := "```" + language;
    var all := BlockLines(b) + rest;
    assert all[0] == first;
    BacktickFirst(language);
    NotVideo(first);
    CodeStepLanguage(all, language);
  }

  lemma BacktickFirst(language: string)
    requires Trimmed(language) && "`" <= language
    ensures var l := "```" + language; Trimmed(l) && Trim(l) == l && l[0] == '`' && "```" <= l
  {
    hide Trim;
    var l := "```" + language;
    assert l[|l| - 1] == language[|language| - 1];
  }

  lemma CodeStepLanguage(lines: seq<string>, language: string)
    requires lines != [] && lines[0] == "```" + language && Trimmed(language) && "`" <= language
    ensures |CodeStep(lines).0| == 1
    ensures CodeStep(lines).0[0].content.Fenced? && CodeStep(lines).0[0].content.language != language
  {
    hide IsFence, Trimmed;
    BacktickFirst(language);
    StripFence(language);
    assert |StripLeading(language, '`')| < |language|;
    assert |Trim(StripLeading(language, '`'))| <= |StripLeading(language, '`')|;
  }

  lemma StripOne(s: string)
    ensures StripLeading("`" + s, '`') == StripLeading(s, '`')
  {
    assert ("`" + s)[1..] == s;
  }

  lemma StripFence(language: string)
    ensures StripLeading("```" + language, '`') == StripLeading(language, '`')
  {
    StripOne(language);
    StripOne("`" + language);
    StripOne("`" + ("`" + language));
    assert "`" + ("`" + ("`" + language)) == "```" + language;
  }

  /** A document of surviving blocks is read back exactly when it has no backtick fence. */
  lemma {:induction false} DocumentReadBackIff(bs: seq<ParsedBlock>, html: Html)
    requires forall b :: b in bs ==> Survives(b, html)
    ensures ParseLines(DocumentLines(bs), html) == bs <==> forall b :: b in bs ==> !Backticked(b)
  {
    hide Printable, BlockLines, Step, Backticked;
    if bs != [] {
      var b := bs[0];
      assert b in bs && Survives(b, html);
      var rest := if |bs| == 1 then [] else [""] + DocumentLines(bs[1..]);
      assert DocumentLines(bs) == BlockLines(b) + rest by {
        if |bs| == 1 { assert BlockLines(b) + [] == BlockLines(b); }
      }
      if Backticked(b) {
        BacktickFenceShrinks(b, rest, html);
        BacktickLines(b);
      } else {
        DocumentReadBackIff(bs[1..], html);
        FirstReadBack(bs, html);
        hide ParseLines, DocumentLines, Survives;
        assert bs == [b] + bs[1..];
        assert forall c :: c in bs <==> c == b || c in bs[1..];
      }
    }
  }

  lemma BacktickLines(b: ParsedBlock)
    requires Backticked(b)
    ensures BlockLines(b) != [] && Join(BlockLines(b), "\n") == PrintBlock(b) && AllPlain(BlockLines(b))
  {
    hide Split, IsFence, Trimmed;
    FencedJoin(b.content.language, b.content.code);
    CodePlain(b.content.language, b.content.code);
  }

  lemma {:induction false} SurvivingLines(bs: seq<ParsedBlock>, html: Html)
    requires forall b :: b in bs ==> Survives(b, html)
    ensures var lines := DocumentLines(bs);
            AllPlain(lines) && (bs != [] ==> lines != []) && Join(lines, "\n") == Print(bs)
  {
    hide Printable, BlockLines, PrintBlock, Plain, Backticked;
    if bs != [] {
      var b := bs[0];
      assert b in bs && Survives(b, html);
      if Printable(b, html) {
        BlockLinesJoin(b, html);
        BlockLinesPlain(b, html);
      } else {
        BacktickLines(b);
      }
      if |bs| > 1 {
        SurvivingLines(bs[1..], html);
      }
      DocumentLinesStep(bs);
    }
  }

  /** Saving what the editor shows for freshly parsed text, with either line end, changes nothing exactly
      when no fence language starts with a backtick. */
  lemma SecondPassIff(source: string, html: Html)
    requires CleanSource(source) && Tame(Parse(source, NoHtml()), html)
    ensures var bs := Parse(source, html);
            && (Parse(Print(bs), html) == bs <==>
                  forall b :: b in bs ==> !(b.kind.Code? && b.content.Fenced? && "`" <= b.content.language))
            && Parse(WithReturns(Print(bs)), html) == Parse(Print(bs), html)
  {
    hide Survives, Lines, ParseLines, CleanSource, WithReturns, Plain, Tame, NoHtml;
    var bs := Parse(source, html);
    ParsedSurvives(source, html);
    SurvivingLines(bs, html);
    PlainLines(DocumentLines(bs));
    PlainLinesPosted(DocumentLines(bs));
    DocumentReadBackIff(bs, html);
    forall b | b in bs
      ensures Backticked(b) <==> b.kind.Code? && b.content.Fenced? && "`" <= b.content.language
    {
      SurvivingFence(b, html);
    }
  }

  /** Where the printed text is clean source, the lists of printable blocks are exactly those that come back
      from it without a recogniser at work on anything that would not survive. */
  lemma ReadBackIffPrintable(bs: seq<ParsedBlock>, html: Html)
    requires CleanSource(Print(bs))
    ensures AllPrintable(bs, html) <==> Parse(Print(bs), html) == bs && Tame(Parse(Print(bs), NoHtml()), html)
  {
    hide AllPrintable, Parse, Print, CleanSource, Tame, NoHtml;
    if AllPrintable(bs, html) {
      PrintThenParse(bs, html);
      PrintedIsTame(bs, html);
    }
    if Parse(Print(bs), html) == bs && Tame(Parse(Print(bs), NoHtml()), html) { OnlyPrintable(bs, html); }
  }

  lemma PrintableWithout(b: ParsedBlock, html: Html)
    requires Printable(b, html)
    ensures Printable(b, NoHtml()) && !Taken(b, html)
  {
    hide Split, Trim, TrimEnd, Breaks, VideoFromUrl, ImageLine, PrintableImage, PrintableItems, FencedFields;
  }

  lemma PrintedIsTame(bs: seq<ParsedBlock>, html: Html)
    requires AllPrintable(bs, html)
    ensures Tame(Parse(Print(bs), NoHtml()), html)
  {
    hide Printable, Parse, Print, NoHtml, Taken, Converted, Survives;
    forall b | b in bs ensures Printable(b, NoHtml()) && !Taken(b, html) {
      PrintableWithout(b, html);
    }
    PrintThenParse(bs, NoHtml());
  }

  lemma OnlyPrintable(bs: seq<ParsedBlock>, html: Html)
    requires CleanSource(Print(bs)) && Tame(Parse(Print(bs), NoHtml()), html) && Parse(Print(bs), html) == bs
    ensures AllPrintable(bs, html)
  {
    hide Printable, Backticked, Lines, ParseLines, CleanSource, Print, Plain, Tame, NoHtml;
    ParsedSurvives(Print(bs), html);
    SurvivingLines(bs, html);
    PlainLines(DocumentLines(bs));
    DocumentReadBackIff(bs, html);
  }

  lemma SurvivingFence(b: ParsedBlock, html: Html)
    requires Survives(b, html)
    ensures Backticked(b) <==> b.kind.Code? && b.content.Fenced? && "`" <= b.content.language
  {
    hide Split, IsFence, Trimmed;
  }

  /** Such fences do occur. */
  lemma BacktickFenceExists(html: Html)
    ensures Parse("``` `x", html) == [ParsedBlock(Code, Fenced("`x", ""))]
  {
    hide Lines, Step;
    var s := "``` `x";
    OneLineSource(s);
    BacktickStep(html);
    assert [s][1..] == [];
  }

  lemma OneLineSource(s: string)
    requires s != "" && OneLine(s)
    ensures Lines(s) == [s]
  {
    SplitPlain(s, '\n');
    assert Split(s, '\n')[..0] == [];
  }

  lemma BacktickText()
    ensures var s := "``` `x"; Trim(s) == s && Trim(StripLeading(s, '`')) == "`x"
  {
    var s := "``` `x";
    assert Trimmed(s);
    StripFence(" `x");
    assert "```" + " `x" == s;
    TrimPadded(" ", "`x");
    assert " " + "`x" == " `x";
  }

  lemma BacktickStep(html: Html)
    ensures Step(["``` `x"], html) == ([ParsedBlock(Code, Fenced("`x", ""))], 1)
  {
    hide ParseVideoLine, ImageLine, ParseListMarker, Trim, StripLeading, Join, IsCodeLine;
    var s := "``` `x";
    BacktickText();
    NotVideo(s);
    assert [s][1..] == [] && [s][1..1] == [];
    NoLines();
  }

  lemma NoLines()
    ensures Span([], IsCodeLine) == 0 && Join([], "\n") == ""
  {
  }
}
