/** Parsing what was printed. */
module RoundTrip {
  import opened Options
  import opened Blocks
  import opened Text
  import opened Markdown
  import opened MarkdownParser
  import opened MarkdownPrinter

  // ----- the blocks that survive

  predicate OneLine(s: string) { '\n' !in s }

  predicate EndsInReturn(s: string) { s != "" && s[|s| - 1] == '\r' }

  /** A text field between round brackets. */
  predicate Address(s: string) { OneLine(s) && Trimmed(s) && ')' !in s }

  predicate PrintableImage(src: string, alt: string, size: string, href: string) {
    && OneLine(alt) && ']' !in alt
    && Address(src) && src != ""
    && (if size == "" then SplitImageSize(src) == (src, "") else IsValidSize(size))
    && Address(href)
  }

  predicate PrintableParagraph(text: string, html: Html) {
    var lines := Split(text, '\n');
    && (forall i :: 0 <= i < |lines| ==> TrimEnd(lines[i]) == lines[i] && !Breaks(lines[i]))
    && ParseVideoLine(Trim(lines[0])).None?
    && ImageLine(Trim(lines[0])).None?
    && html(text).None?
  }

  predicate PrintableQuote(text: string) {
    && (text == "" || text[0] != '\n')
    && forall l :: l in Split(text, '\n') ==> Trimmed(l)
  }

  predicate FencedFields(language: string, code: string) {
    && OneLine(language) && Trimmed(language)
    && forall l :: l in Split(code, '\n') ==> !IsFence(l) && !EndsInReturn(l)
  }

  predicate PrintableCode(language: string, code: string) {
    FencedFields(language, code) && !("`" <= language)
  }

  predicate PrintableItems(items: seq<string>) {
    items != [] && forall s :: s in items ==> OneLine(s) && Trimmed(s) && s != ""
  }

  predicate Printable(b: ParsedBlock, html: Html) {
    match b
    case ParsedBlock(Heading(level), Text(text)) => 1 <= level <= 6 && OneLine(text) && Trimmed(text)
    case ParsedBlock(Quote, Text(text)) => PrintableQuote(text)
    case ParsedBlock(Code, Fenced(language, code)) => PrintableCode(language, code)
    case ParsedBlock(Image, Picture(src, alt, size, href)) => PrintableImage(src, alt, size, href)
    case ParsedBlock(List(_), Items(items)) => PrintableItems(items)
    case ParsedBlock(Divider, Empty) => true
    case ParsedBlock(Video, Clip(provider, id, url, meta)) =>
      OneLine(url) && Trimmed(url) && meta == NO_METADATA && VideoFromUrl(url) == Some((provider, id))
    case ParsedBlock(Paragraph, Text(text)) => PrintableParagraph(text, html)
    case _ => false
  }

  // ----- the printed lines

  function AddressOf(src: string, size: string): string {
    if size == "" then src else src + " =" + size
  }

  function BlockLines(b: ParsedBlock): seq<string> {
    match b
    case ParsedBlock(Heading(level), Text(text)) => [Repeat('#', level) + " " + text]
    case ParsedBlock(Quote, Text(text)) => Prefixed("> ", Split(text, '\n'))
    case ParsedBlock(Code, Fenced(language, code)) => ["```" + language] + Split(code, '\n') + ["```"]
    case ParsedBlock(Image, Picture(src, alt, size, href)) =>
      var image := "![" + alt + "](" + AddressOf(src, size) + ")";
      [if href == "" then image else "[" + image + "](" + href + ")"]
    case ParsedBlock(List(ordered), Items(items)) => Prefixed(if ordered then "1. " else "- ", items)
    case ParsedBlock(Divider, Empty) => ["---"]
    case ParsedBlock(Video, Clip(_, _, url, _)) => [url]
    case ParsedBlock(Paragraph, Text(text)) => Split(text, '\n')
    case _ => []
  }

  lemma FencedJoin(language: string, code: string)
    ensures Join(["```" + language] + Split(code, '\n') + ["```"], "\n") == "```" + language + "\n" + code + "\n```"
  {
    hide Split;
    JoinAppend(["```" + language] + Split(code, '\n'), ["```"], "\n");
    JoinAppend(["```" + language], Split(code, '\n'), "\n");
    JoinOfSplit(code, '\n');
    assert "\n" == ['\n'];
    var c, d := "```" + language + "\n" + code, "\n";
    assert (c + d) + "```" == c + "\n```";
  }

  lemma ImageLines(src: string, alt: string, size: string, href: string)
    ensures BlockLines(ParsedBlock(Image, Picture(src, alt, size, href))) == [PrintImage(src, alt, size, href)]
  {
  }

  lemma BlockLinesJoin(b: ParsedBlock, html: Html)
    requires Printable(b, html)
    ensures BlockLines(b) != [] && Join(BlockLines(b), "\n") == PrintBlock(b)
  {
    hide Split, Breaks, VideoFromUrl, SplitImageSize, ImageLine, ParseVideoLine, IsFence, Trimmed, PrintImage;
    match b
    case ParsedBlock(Code, Fenced(language, code)) =>
      FencedJoin(language, code);
    case ParsedBlock(Paragraph, Text(text)) =>
      JoinOfSplit(text, '\n');
      assert "\n" == ['\n'];
    case ParsedBlock(Image, Picture(src, alt, size, href)) =>
      ImageLines(src, alt, size, href);
    case ParsedBlock(Video, Clip(provider, id, url, meta)) =>
      VideoPrints(provider, id, url);
    case _ =>
  }

  // ----- one printed block is read back in one round

  /** What may follow a block's lines: nothing, or the blank line between blocks. */
  ghost predicate Follows(rest: seq<string>) {
    rest == [] || rest[0] == ""
  }

  lemma NotVideo(t: string)
    requires Trimmed(t) && (t == "" || t[0] != 'h')
    ensures ParseVideoLine(t).None?
  {
    hide VideoAt, Lower, StripTrailing, Find;
  }

  lemma BlankLine()
    ensures Breaks("") && !IsQuoteLine("") && (forall o :: !IsItemLine("", o)) && Trim("") == ""
  {
  }

  lemma {:induction false} CountRun(n: nat, rest: string)
    requires rest == "" || rest[0] != '#'
    ensures CountLeading(Repeat('#', n) + rest, '#') == n
  {
    if n == 0 {
      assert Repeat('#', 0) + rest == rest;
    } else {
      CountRun(n - 1, rest);
      assert (Repeat('#', n) + rest)[1..] == Repeat('#', n - 1) + rest;
    }
  }

  lemma HeadingTrims(level: nat, text: string)
    requires 1 <= level && Trimmed(text)
    ensures var hashes := Repeat('#', level);
            Trim(hashes + " " + text) == if text == "" then hashes else hashes + " " + text
  {
    var hashes := Repeat('#', level);
    var h := hashes + " " + text;
    assert h[0] == '#' && TrimStart(h) == h;
    if text == "" {
      assert h[..|h| - 1] == hashes && h[|h| - 1] == ' ';
      assert !IsSpace(hashes[level - 1]);
    } else {
      assert h[|h| - 1] == text[|text| - 1];
    }
  }

  lemma HeadingLine(level: nat, text: string)
    requires 1 <= level <= 6 && Trimmed(text)
    ensures var t := Trim(Repeat('#', level) + " " + text);
            t != "" && t[0] == '#' && ParseHeading(t) == Some((level, text))
  {
    hide Repeat, Trim, CountLeading;
    var hashes := Repeat('#', level);
    HeadingTrims(level, text);
    if text == "" {
      CountRun(level, "");
      assert hashes + "" == hashes && hashes[level..] == "";
      TrimPadded("", "");
      assert "" + "" == "";
    } else {
      var h := hashes + " " + text;
      CountRun(level, " " + text);
      assert hashes + (" " + text) == h && h[level..] == " " + text;
      TrimPadded(" ", text);
    }
  }

  lemma StepHeading(level: nat, text: string, rest: seq<string>, html: Html)
    requires 1 <= level <= 6 && Trimmed(text)
    ensures Step([Repeat('#', level) + " " + text] + rest, html)
         == ([ParsedBlock(Heading(level), Content.Text(text))], 1)
  {
    hide Repeat, Trim, ParseVideoLine, ParseHeading, ImageLine, ParseListMarker, IsHorizontalRule;
    var h := Repeat('#', level) + " " + text;
    HeadingLine(level, text);
    NotVideo(Trim(h));
    assert ([h] + rest)[0] == h;
  }

  lemma StepDivider(rest: seq<string>, html: Html)
    ensures Step(["---"] + rest, html) == ([ParsedBlock(Divider, Empty)], 1)
  {
    hide ParseVideoLine, ImageLine, ParseListMarker, CodeStep, QuoteStep, ListStep, ParagraphStep;
    NotVideo("---");
    assert (["---"] + rest)[0] == "---" && Trim("---") == "---";
    assert ParseHeading("---").None? && IsHorizontalRule("---");
  }

  lemma StepVideo(provider: string, id: string, url: string, rest: seq<string>, html: Html)
    requires Trimmed(url) && VideoFromUrl(url) == Some((provider, id))
    ensures Step([url] + rest, html) == ([VideoBlock(provider, id, url)], 1)
  {
    hide VideoFromUrl, Trim;
    assert Trim(url) == url && ([url] + rest)[0] == url && url != "";
  }

  lemma QuoteLine(q: string)
    requires Trimmed(q)
    ensures IsQuoteLine("> " + q) && QuoteOf("> " + q) == q && TrimStart("> " + q) == "> " + q
  {
    var l := "> " + q;
    assert l[1..] == " " + q && StripLeading(l, '>') == StripLeading(" " + q, '>') == " " + q;
    TrimPadded(" ", q);
  }

  lemma {:induction false} CollectIsJoin(lines: seq<string>)
    requires lines != [] && (lines[0] != "" || lines == [""])
    ensures Collect(lines) == Join(lines, "\n")
    ensures lines[0] != "" ==> Collect(lines) != ""
  {
    var n := |lines| - 1;
    if n == 0 {
      assert lines[..0] == [];
    } else {
      CollectIsJoin(lines[..n]);
      JoinSnoc(lines[..n], lines[n], "\n");
      assert lines == lines[..n] + [lines[n]];
    }
  }

  lemma StepQuote(text: string, rest: seq<string>, html: Html)
    requires PrintableQuote(text) && Follows(rest)
    ensures var lines := Prefixed("> ", Split(text, '\n'));
            Step(lines + rest, html) == ([ParsedBlock(Quote, Content.Text(text))], |lines|)
  {
    hide Split, Trim, ParseVideoLine, ImageLine, ParseListMarker, IsHorizontalRule, QuoteOf, IsQuoteLine, Collect,
        Trimmed;
    var qs := Split(text, '\n');
    var lines := Prefixed("> ", qs);
    var all := lines + rest;
    forall i | 0 <= i < |qs|
      ensures IsQuoteLine(lines[i]) && QuoteOf(lines[i]) == qs[i] && TrimStart(lines[i]) == lines[i]
    {
      assert qs[i] in qs;
      QuoteLine(qs[i]);
    }
    BlankLine();
    SpanExactly(all, IsQuoteLine, |lines|);
    assert all[..|lines|] == lines && QuotesOf(lines) == qs;
    SplitFirst(text, '\n');
    CollectIsJoin(qs);
    JoinOfSplit(text, '\n');
    assert "\n" == ['\n'];
    var t := Trim(all[0]);
    assert t[0] == '>' by { PrefixOfTrim(">", all[0]); assert all[0] == lines[0] == "> " + qs[0]; }
    TrimIsTrimmed(all[0]);
    NotVideo(t);
    assert Step(all, html) == QuoteStep(all);
  }

  lemma TrimIsTrimmed(s: string)
    ensures Trimmed(Trim(s))
  {
  }

  lemma FenceLine(language: string)
    requires Trimmed(language) && !("`" <= language)
    ensures var l := "```" + language;
            Trim(l) == l && "```" <= l && Trim(StripLeading(l, '`')) == language && IsFence("```")
  {
    var l := "```" + language;
    assert Trimmed(l) by {
      assert l[0] == '`';
      if language == "" { assert l == "```"; } else { assert l[|l| - 1] == language[|language| - 1]; }
    }
    StripRun(3, '`', language);
    assert Repeat('`', 3) == "```";
  }

  lemma StepCode(language: string, code: string, rest: seq<string>, html: Html)
    requires PrintableCode(language, code)
    ensures var lines := ["```" + language] + Split(code, '\n') + ["```"];
            Step(lines + rest, html) == ([ParsedBlock(Code, Fenced(language, code))], |lines|)
  {
    hide Split, Trim, ParseVideoLine, ImageLine, ParseListMarker, IsHorizontalRule, IsFence, Trimmed, StripLeading,
        EndsInReturn;
    var cs := Split(code, '\n');
    var first := "```" + language;
    var lines := [first] + cs + ["```"];
    var all := lines + rest;
    FenceLine(language);
    FenceLine("");
    assert "```" + "" == "```";
    forall i | 0 <= i < |cs| ensures IsCodeLine(all[1..][i]) {
      assert all[1..][i] == cs[i] && cs[i] in cs;
    }
    assert all[1..][|cs|] == "```";
    SpanExactly(all[1..], IsCodeLine, |cs|);
    assert all[1..1 + |cs|] == cs;
    JoinOfSplit(code, '\n');
    assert "\n" == ['\n'];
    TrimIsTrimmed(first);
    NotVideo(first);
    assert all[0] == first;
    assert Step(all, html) == CodeStep(all);
  }

  lemma ItemLine(ordered: bool, item: string)
    requires Trimmed(item) && item != ""
    ensures var l := Marker(ordered) + item;
            && Trim(l) == l && ParseListMarker(l) == Some((ordered, item)) && !IsHorizontalRule(l)
            && l[0] == (if ordered then '1' else '-') && !("```" <= l) && !StartsImage(l)
  {
    hide Trim, AfterMarker;
    var l := Marker(ordered) + item;
    assert Trimmed(l) by { assert l[|l| - 1] == item[|item| - 1]; }
    assert l[1] == if ordered then '.' else ' ';
    TrimPadded(" ", item);
    MarkerRead(ordered, item);
    NoRule(ordered, item);
  }

  lemma MarkerRead(ordered: bool, item: string)
    ensures AfterMarker(Marker(ordered) + item) == Some((ordered, " " + item))
  {
    var l := Marker(ordered) + item;
    if ordered {
      assert l[0] == '1' && l[1] == '.';
      assert CountDigits(l[1..]) == 0;
      assert CountDigits(l) == 1;
      assert l[2..] == " " + item;
    } else {
      assert l[1..] == " " + item;
    }
  }

  /** No white space is needed after a marker: "1.5 l" is the item "5 l" of an ordered list. */
  lemma MarkerNeedsNoSpace(item: string)
    requires Trimmed(item) && item != ""
    ensures ParseListMarker("1." + item) == Some((true, item)) && ParseListMarker("-" + item) == Some((false, item))
  {
    hide Trim;
    var l, m := "1." + item, "-" + item;
    assert Trimmed(l) by { assert l[|l| - 1] == item[|item| - 1]; }
    assert Trimmed(m) by { assert m[|m| - 1] == item[|item| - 1]; }
    assert CountDigits(l[1..]) == 0 && CountDigits(l) == 1;
    assert l[2..] == item && m[1..] == item;
  }

  lemma NoRule(ordered: bool, item: string)
    ensures !IsHorizontalRule(Marker(ordered) + item)
  {
    var l := Marker(ordered) + item;
    assert l[if ordered then 2 else 1] == ' ' && ' ' in l;
  }

  lemma ItemsRead(ordered: bool, items: seq<string>, rest: seq<string>)
    requires PrintableItems(items) && Follows(rest)
    ensures var lines := Prefixed(Marker(ordered), items);
            ListStep(lines + rest, ordered) == ([ParsedBlock(List(ordered), Items(items))], |lines|)
  {
    hide Trim, ParseListMarker, IsHorizontalRule, Trimmed, Marker, OneLine, StartsImage;
    var lines := Prefixed(Marker(ordered), items);
    var all := lines + rest;
    forall i | 0 <= i < |items|
      ensures IsItemLine(lines[i], ordered) && ParseListMarker(Trim(lines[i])) == Some((ordered, items[i]))
    {
      assert items[i] in items;
      ItemLine(ordered, items[i]);
    }
    BlankLine();
    forall i | 0 <= i < |items| - 1 ensures IsItemLine(all[1..][i], ordered) {
      assert all[1..][i] == lines[i + 1];
    }
    SpanExactly(all[1..], l => IsItemLine(l, ordered), |items| - 1);
    assert all[..|items|] == lines && ItemsOf(lines) == items;
  }

  lemma StepList(ordered: bool, items: seq<string>, rest: seq<string>, html: Html)
    requires PrintableItems(items) && Follows(rest)
    ensures var lines := Prefixed(Marker(ordered), items);
            Step(lines + rest, html) == ([ParsedBlock(List(ordered), Items(items))], |lines|)
  {
    hide Trim, ParseVideoLine, ImageRun, ParseListMarker, IsHorizontalRule, Trimmed, Marker, ListStep;
    ItemsRead(ordered, items, rest);
    var all := Prefixed(Marker(ordered), items) + rest;
    assert items[0] in items;
    ItemLine(ordered, items[0]);
    TrimIsTrimmed(all[0]);
    NotVideo(all[0]);
    assert Step(all, html) == ListStep(all, ordered);
  }

  lemma StepParagraph(text: string, rest: seq<string>, html: Html)
    requires PrintableParagraph(text, html) && Follows(rest)
    ensures var lines := Split(text, '\n');
            Step(lines + rest, html) == ([ParsedBlock(Paragraph, Content.Text(text))], |lines|)
  {
    hide Split, Trim, ParseVideoLine, ImageLine, ParseListMarker, IsHorizontalRule, Collect, TrimEnd;
    var lines := Split(text, '\n');
    var all := lines + rest;
    BlankLine();
    SpanExactly(all, IsParagraphLine, |lines|);
    assert all[..|lines|] == lines && EndsTrimmed(lines) == lines;
    assert lines[0] != "" by { assert !Breaks(lines[0]); }
    CollectIsJoin(lines);
    JoinOfSplit(text, '\n');
    assert "\n" == ['\n'];
    assert all[0] == lines[0];
    assert Step(all, html) == ParagraphStep(all, html);
  }

  // ----- images

  lemma SizeCharacters(size: string)
    requires IsValidSize(size)
    ensures forall c :: c in size ==> IsDigit(c) || c == 'x'
  {
    match Find(size, 'x')
    case Some(i) => assert size == size[..i] + ['x'] + size[i + 1..];
    case None =>
  }

  lemma AddressSplits(src: string, size: string)
    requires Address(src) && src != ""
    requires if size == "" then SplitImageSize(src) == (src, "") else IsValidSize(size)
    ensures var a := AddressOf(src, size);
            a != "" && Trimmed(a) && ')' !in a && '\n' !in a && SplitImageSize(a) == (src, size)
  {
    hide IsValidSize, SplitImageSize;
    if size != "" {
      SizeCharacters(size);
      var a := src + " =" + size;
      assert size[|size| - 1] in size;
      assert a[|a| - 1] == size[|size| - 1];
      SizedAddress(src, size);
    }
  }

  lemma SizedAddress(src: string, size: string)
    requires Address(src) && src != "" && size != "" && IsValidSize(size)
    ensures SplitImageSize(src + " =" + size) == (src, size)
  {
    hide IsValidSize, FindLast;
    SizeCharacters(size);
    var a, before := src + " =" + size, src + " ";
    assert a == before + ['='] + size;
    FindLastBefore(before, '=', size);
    assert a[..|before|] == before && a[|before| + 1..] == size;
    assert before[..|before| - 1] == src;
  }

  function ImageText(src: string, alt: string, size: string): string {
    "![" + alt + "](" + AddressOf(src, size) + ")"
  }

  lemma ImageShape(src: string, alt: string, size: string, tail: string)
    ensures var s, a := ImageText(src, alt, size), AddressOf(src, size);
            && |s| == |alt| + |a| + 5 && s[0] == '!' && "!" <= s + tail
            && (s + tail)[1..] == "[" + alt + "]" + ("(" + a + ")" + tail)
  {
    hide AddressOf;
  }

  lemma PlainImage(src: string, alt: string, size: string, tail: string)
    requires PrintableImage(src, alt, size, "")
    ensures var s := ImageText(src, alt, size);
            ParsePlainImage(s + tail) == Some(ParsedImage(src, alt, size, "", |s|)) && s[0] == '!'
  {
    hide Find, SplitImageSize, IsValidSize, Trim, AddressOf, Trimmed, ImageText;
    AddressSplits(src, size);
    var a := AddressOf(src, size);
    var round := "(" + a + ")" + tail;
    ImageShape(src, alt, size, tail);
    AltText(alt, round);
    RoundText(a, tail);
    assert Trim(a) == a by { TrimOfTrimmed(a); }
  }

  lemma TrimOfTrimmed(s: string)
    requires Trimmed(s)
    ensures Trim(s) == s
  {
  }

  lemma AltText(alt: string, round: string)
    requires ']' !in alt
    ensures var rest := "[" + alt + "]" + round;
            Find(rest, ']') == Some(|alt| + 1) && rest[1..|alt| + 1] == alt && rest[|alt| + 2..] == round
  {
    hide Find;
    assert ']' !in "[" + alt;
    FindAfter("[" + alt, ']', round);
  }

  lemma RoundText(address: string, tail: string)
    requires ')' !in address
    ensures var round := "(" + address + ")" + tail;
            && TrimStart(round) == round && Find(round[1..], ')') == Some(|address|)
            && round[1..][..|address|] == address
  {
    hide Find;
    var round := "(" + address + ")" + tail;
    assert round[1..] == address + [')'] + tail;
    FindAfter(address, ')', tail);
  }

  lemma PrintImageShape(src: string, alt: string, size: string, href: string)
    ensures PrintImage(src, alt, size, href)
         == if href == "" then ImageText(src, alt, size) else "[" + ImageText(src, alt, size) + "](" + href + ")"
  {
  }

  lemma LinkText(href: string)
    requires ')' !in href && Trimmed(href)
    ensures var tail := "](" + href + ")";
            Find(tail[2..], ')') == Some(|href|) && tail[2..][..|href|] == href && Trim(href) == href
  {
    hide Find;
    var tail := "](" + href + ")";
    assert tail[2..] == href + [')'] + "";
    FindAfter(href, ')', "");
  }

  lemma WholeImage(src: string, alt: string, size: string, href: string)
    requires PrintableImage(src, alt, size, href)
    ensures var line := PrintImage(src, alt, size, href);
            ParseImage(line) == Some(ParsedImage(src, alt, size, href, |line|))
  {
    hide Find, ParsePlainImage, Trim, SplitImageSize, IsValidSize, PrintImage, ImageText, AddressOf;
    PrintImageShape(src, alt, size, href);
    var image := ImageText(src, alt, size);
    if href == "" {
      PlainImage(src, alt, size, "");
      assert image + "" == image && image[0] == '!';
    } else {
      LinkedImage(src, alt, size, href);
    }
  }

  lemma LinkedImage(src: string, alt: string, size: string, href: string)
    requires PrintableImage(src, alt, size, href) && href != ""
    ensures var line := "[" + ImageText(src, alt, size) + "](" + href + ")";
            ParseImage(line) == Some(ParsedImage(src, alt, size, href, |line|))
  {
    hide Find, ParsePlainImage, Trim, SplitImageSize, IsValidSize, ImageText;
    PlainImage(src, alt, size, "](" + href + ")");
    LinkedShape(ImageText(src, alt, size), href);
    LinkText(href);
  }

  lemma LinkedShape(image: string, href: string)
    ensures var line, tail := "[" + image + "](" + href + ")", "](" + href + ")";
            && line[1..] == image + tail && line[1..][|image|..] == tail
            && |line| == 1 + |image| + 2 + |href| + 1
  {
    var line, tail := "[" + image + "](" + href + ")", "](" + href + ")";
    assert line[1..] == image + tail;
  }

  lemma StepImage(src: string, alt: string, size: string, href: string, rest: seq<string>, html: Html)
    requires PrintableImage(src, alt, size, href)
    ensures Step([PrintImage(src, alt, size, href)] + rest, html)
         == ([ParsedBlock(Image, Picture(src, alt, size, href))], 1)
  {
    hide ParseImage, Trim, ParseVideoLine, ParseListMarker, SplitImageSize, IsValidSize;
    var line := PrintImage(src, alt, size, href);
    WholeImage(src, alt, size, href);
    assert line[|line| - 1] == ')' && (line[0] == '!' || line[0] == '[');
    assert Trimmed(line) && Trim(line) == line && StartsImage(line);
    assert line[|line|..] == "" && TrimStart("") == "";
    assert ImageRun(line) == ([ParsedImage(src, alt, size, href, |line|)], "");
    NotVideo(line);
    assert ([line] + rest)[0] == line;
    assert line[0] in line && !IsHorizontalRule(line);
    var images := [ParsedImage(src, alt, size, href, |line|)];
    assert ImageBlocks(images) == [ParsedBlock(Image, Picture(src, alt, size, href))];
  }

  // ----- whole documents

  /** Every printable block is read back in one round. */
  lemma StepBlock(b: ParsedBlock, rest: seq<string>, html: Html)
    requires Printable(b, html) && Follows(rest)
    ensures Step(BlockLines(b) + rest, html) == ([b], |BlockLines(b)|)
  {
    hide Step, Split, Breaks, VideoFromUrl, SplitImageSize, ImageLine, ParseVideoLine, IsFence, PrintImage;
    match b
    case ParsedBlock(Heading(level), Text(text)) => StepHeading(level, text, rest, html);
    case ParsedBlock(Quote, Text(text)) => StepQuote(text, rest, html);
    case ParsedBlock(Code, Fenced(language, code)) => StepCode(language, code, rest, html);
    case ParsedBlock(Image, Picture(src, alt, size, href)) =>
      ImageLines(src, alt, size, href);
      StepImage(src, alt, size, href, rest, html);
    case ParsedBlock(List(ordered), Items(items)) => StepList(ordered, items, rest, html);
    case ParsedBlock(Divider, Empty) => StepDivider(rest, html);
    case ParsedBlock(Video, Clip(provider, id, url, meta)) =>
      VideoPrints(provider, id, url);
      StepVideo(provider, id, url, rest, html);
    case ParsedBlock(Paragraph, Text(text)) => StepParagraph(text, rest, html);
  }

  lemma VideoPrints(provider: string, id: string, url: string)
    requires VideoFromUrl(url) == Some((provider, id))
    ensures PrintBlock(VideoBlock(provider, id, url)) == url && url != ""
  {
    hide VideoAt, Lower, StripTrailing, Find;
  }

  /** A line that splitting and joining a text leaves alone. */
  predicate Plain(l: string) { OneLine(l) && !EndsInReturn(l) }

  lemma PlainEmpty()
    ensures Plain("")
  {
  }

  ghost predicate AllPlain(lines: seq<string>) {
    && (forall i :: 0 <= i < |lines| ==> Plain(lines[i]))
    && (lines != [] ==> lines[|lines| - 1] != "")
  }

  lemma BlockLinesPlain(b: ParsedBlock, html: Html)
    requires Printable(b, html)
    ensures AllPlain(BlockLines(b))
  {
    hide Split, Breaks, VideoFromUrl, SplitImageSize, ImageLine, ParseVideoLine, IsFence, IsValidSize, PrintImage,
        Prefixed, AddressOf, Plain;
    match b
    case ParsedBlock(Heading(level), Text(text)) => TrimmedPlain(Repeat('#', level) + " ", text);
    case ParsedBlock(Quote, Text(text)) => QuotePlain(text);
    case ParsedBlock(Code, Fenced(language, code)) => CodePlain(language, code);
    case ParsedBlock(Image, Picture(src, alt, size, href)) =>
      ImageLines(src, alt, size, href);
      ImagePlain(src, alt, size, href);
    case ParsedBlock(List(ordered), Items(items)) => ItemsPlain(ordered, items);
    case ParsedBlock(Divider, Empty) =>
      TrimmedPlain("---", "");
      assert "---" + "" == "---";
    case ParsedBlock(Video, Clip(provider, id, url, meta)) =>
      VideoPrints(provider, id, url);
      TrimmedPlain("", url);
      assert "" + url == url;
    case ParsedBlock(Paragraph, Text(text)) => ParagraphPlain(text, html);
  }

  lemma TrimmedPlain(before: string, s: string)
    requires OneLine(before) && !EndsInReturn(before) && OneLine(s) && Trimmed(s)
    ensures Plain(before + s)
  {
    if s != "" { assert (before + s)[|before + s| - 1] == s[|s| - 1]; } else { assert before + s == before; }
  }

  lemma QuotePlain(text: string)
    requires PrintableQuote(text)
    ensures AllPlain(Prefixed("> ", Split(text, '\n')))
  {
    hide Split, Trimmed, Plain;
    SplitParts(text, '\n');
    var ls := Split(text, '\n');
    forall i | 0 <= i < |ls| ensures Plain("> " + ls[i]) {
      assert ls[i] in ls;
      TrimmedPlain("> ", ls[i]);
    }
  }

  lemma ItemsPlain(ordered: bool, items: seq<string>)
    requires PrintableItems(items)
    ensures AllPlain(Prefixed(Marker(ordered), items))
  {
    hide Trimmed, Plain;
    forall i | 0 <= i < |items| ensures Plain(Marker(ordered) + items[i]) {
      assert items[i] in items;
      TrimmedPlain(Marker(ordered), items[i]);
    }
  }

  lemma CodePlain(language: string, code: string)
    requires FencedFields(language, code)
    ensures AllPlain(["```" + language] + Split(code, '\n') + ["```"])
  {
    hide Split, Trimmed, IsFence;
    SplitParts(code, '\n');
    TrimmedPlain("```", language);
    var cs := Split(code, '\n');
    forall i | 0 <= i < |cs| ensures Plain(cs[i]) {
      assert cs[i] in cs;
    }
  }

  lemma ImagePlain(src: string, alt: string, size: string, href: string)
    requires PrintableImage(src, alt, size, href)
    ensures Plain(PrintImage(src, alt, size, href)) && PrintImage(src, alt, size, href) != ""
  {
    hide SplitImageSize, IsValidSize;
    if size != "" { SizeCharacters(size); }
  }

  lemma ParagraphPlain(text: string, html: Html)
    requires PrintableParagraph(text, html)
    ensures AllPlain(Split(text, '\n'))
  {
    hide Split, ImageLine, ParseVideoLine;
    SplitParts(text, '\n');
    BlankLine();
    var lines := Split(text, '\n');
    forall i | 0 <= i < |lines| ensures Plain(lines[i]) && lines[i] != "" {
      assert TrimEnd(lines[i]) == lines[i] && !Breaks(lines[i]);
    }
  }

  /** The lines of the printed document: a blank line between neighbours. */
  function DocumentLines(bs: seq<ParsedBlock>): seq<string> {
    if bs == [] then []
    else if |bs| == 1 then BlockLines(bs[0])
    else BlockLines(bs[0]) + ([""] + DocumentLines(bs[1..]))
  }

  ghost predicate AllPrintable(bs: seq<ParsedBlock>, html: Html) {
    forall b :: b in bs ==> Printable(b, html)
  }

  /** One more block in front of a document whose lines are in order. */
  lemma DocumentLinesStep(bs: seq<ParsedBlock>)
    requires bs != [] && BlockLines(bs[0]) != [] && AllPlain(BlockLines(bs[0]))
    requires Join(BlockLines(bs[0]), "\n") == PrintBlock(bs[0])
    requires |bs| > 1 ==>
               var rest := DocumentLines(bs[1..]);
               rest != [] && AllPlain(rest) && Join(rest, "\n") == Print(bs[1..])
    ensures var lines := DocumentLines(bs); lines != [] && AllPlain(lines) && Join(lines, "\n") == Print(bs)
  {
    hide BlockLines, PrintBlock, Plain, Join;
    if |bs| > 1 {
      var lines, rest := BlockLines(bs[0]), DocumentLines(bs[1..]);
      assert DocumentLines(bs) == lines + ([""] + rest);
      PrintCons(bs);
      hide DocumentLines, Print, AllPlain;
      BlankBetween(lines, rest);
    } else {
      assert PrintBlocks(bs) == [PrintBlock(bs[0])];
      JoinOne(PrintBlock(bs[0]), "\n\n");
    }
  }

  lemma BlankBetween(lines: seq<string>, rest: seq<string>)
    requires lines != [] && rest != [] && AllPlain(lines) && AllPlain(rest)
    ensures AllPlain(lines + ([""] + rest))
    ensures Join(lines + ([""] + rest), "\n") == Join(lines, "\n") + "\n\n" + Join(rest, "\n")
  {
    hide Plain, Join;
    PlainEmpty();
    JoinAppend(lines, [""] + rest, "\n");
    JoinBlankFront(rest);
    JoinPieces(Join(lines, "\n"), Join(rest, "\n"));
  }

  lemma JoinBlankFront(rest: seq<string>)
    requires rest != []
    ensures Join([""] + rest, "\n") == "\n" + Join(rest, "\n")
  {
    JoinAppend([""], rest, "\n");
    assert "" + "\n" == "\n";
  }

  lemma JoinOne(s: string, separator: string)
    ensures Join([s], separator) == s
  {
  }

  lemma JoinPieces(a: string, b: string)
    ensures a + "\n" + ("\n" + b) == a + "\n\n" + b
  {
    assert a + "\n" + ("\n" + b) == a + ("\n" + "\n") + b;
    assert "\n" + "\n" == "\n\n";
  }

  lemma {:induction false} DocumentLinesPlain(bs: seq<ParsedBlock>, html: Html)
    requires AllPrintable(bs, html)
    ensures var lines := DocumentLines(bs);
            AllPlain(lines) && (bs != [] ==> lines != []) && Join(lines, "\n") == Print(bs)
  {
    hide Printable, BlockLines, PrintBlock, Plain;
    if bs != [] {
      assert bs[0] in bs;
      BlockLinesJoin(bs[0], html);
      BlockLinesPlain(bs[0], html);
      if |bs| > 1 {
        DocumentLinesPlain(bs[1..], html);
      }
      DocumentLinesStep(bs);
    }
  }

  lemma PrintCons(bs: seq<ParsedBlock>)
    requires |bs| > 1
    ensures Print(bs) == PrintBlock(bs[0]) + "\n\n" + Print(bs[1..])
  {
    hide PrintBlock;
    assert PrintBlocks(bs)[1..] == PrintBlocks(bs[1..]);
  }

  lemma BlankStep(lines: seq<string>, html: Html)
    requires lines != [] && lines[0] == ""
    ensures Step(lines, html) == ([], 1)
  {
    BlankLine();
  }

  lemma FirstReadBack(bs: seq<ParsedBlock>, html: Html)
    requires bs != [] && Printable(bs[0], html)
    ensures ParseLines(DocumentLines(bs), html) == [bs[0]] + ParseLines(DocumentLines(bs[1..]), html)
  {
    hide Printable, BlockLines, Step;
    var b := bs[0];
    var rest := if |bs| == 1 then [] else [""] + DocumentLines(bs[1..]);
    assert DocumentLines(bs) == BlockLines(b) + rest by {
      if |bs| == 1 { assert BlockLines(b) + [] == BlockLines(b); }
    }
    StepBlock(b, rest, html);
    BlockLinesJoin(b, html);
    assert (BlockLines(b) + rest)[|BlockLines(b)|..] == rest;
    hide DocumentLines;
    assert ParseLines(DocumentLines(bs), html) == [b] + ParseLines(rest, html);
    AfterBlank(bs, html);
  }

  lemma AfterBlank(bs: seq<ParsedBlock>, html: Html)
    requires bs != []
    ensures ParseLines(if |bs| == 1 then [] else [""] + DocumentLines(bs[1..]), html)
        == ParseLines(DocumentLines(bs[1..]), html)
  {
    hide BlockLines, Step;
    if |bs| == 1 {
      assert DocumentLines(bs[1..]) == [];
    } else {
      var rest := [""] + DocumentLines(bs[1..]);
      BlankStep(rest, html);
      assert rest[1..] == DocumentLines(bs[1..]);
      assert ParseLines(rest, html) == [] + ParseLines(rest[1..], html);
    }
  }

  lemma {:induction false} ParseDocumentLines(bs: seq<ParsedBlock>, html: Html)
    requires AllPrintable(bs, html)
    ensures ParseLines(DocumentLines(bs), html) == bs
  {
    hide Printable, BlockLines, Step;
    if bs != [] {
      assert bs[0] in bs;
      FirstReadBack(bs, html);
      ParseDocumentLines(bs[1..], html);
      assert bs == [bs[0]] + bs[1..];
    }
  }

  /** Lines in order come back from the joined text. */
  lemma PlainLines(lines: seq<string>)
    requires AllPlain(lines)
    ensures Lines(Join(lines, "\n")) == lines
  {
    forall l | l in lines ensures '\n' !in l && (l != "" ==> l[|l| - 1] != '\r') {
      var i :| 0 <= i < |lines| && lines[i] == l;
      assert Plain(lines[i]);
    }
    LinesOfJoin(lines);
  }

  lemma PlainLinesPosted(lines: seq<string>)
    requires AllPlain(lines)
    ensures Lines(WithReturns(Join(lines, "\n"))) == lines
  {
    forall i | 0 <= i < |lines| ensures '\n' !in lines[i] {
      assert Plain(lines[i]);
    }
    LinesOfReturns(lines);
  }

  /** A printed document parses the same with the line ends a form submits. */
  lemma PostedParsesSame(bs: seq<ParsedBlock>, html: Html)
    requires AllPrintable(bs, html)
    ensures Parse(WithReturns(Print(bs)), html) == Parse(Print(bs), html)
  {
    hide ParseLines, Lines, WithReturns, AllPrintable, Plain;
    DocumentLinesPlain(bs, html);
    PlainLines(DocumentLines(bs));
    PlainLinesPosted(DocumentLines(bs));
  }

  /** Parsing a printed list of printable blocks gives it back, whatever the recogniser of raw HTML. */
  lemma PrintThenParse(bs: seq<ParsedBlock>, html: Html)
    requires AllPrintable(bs, html)
    ensures Parse(Print(bs), html) == bs
  {
    hide Step, Lines;
    DocumentLinesPlain(bs, html);
    PlainLines(DocumentLines(bs));
    ParseDocumentLines(bs, html);
  }
}
