/** The line-based Markdown parser.

The recogniser of raw HTML paragraphs (img and iframe tags) is a parameter of everything here: html
returns the blocks such a paragraph becomes, and None for any other text. */
module Markdown {
  import opened Options
  import opened Blocks
  import opened Text

  type Html = string -> Option<seq<ParsedBlock>>

  // ----- video lines

  predicate EndsWith(s: string, suffix: string) {
    |suffix| <= |s| && s[|s| - |suffix|..] == suffix
  }

  predicate IsDigit(c: char) { '0' <= c <= '9' }

  predicate IsAlphanumeric(c: char) { IsDigit(c) || 'a' <= c <= 'z' || 'A' <= c <= 'Z' }

  predicate ValidVideoId(id: string) {
    0 < |id| <= 32 && forall c :: c in id ==> IsAlphanumeric(c) || c == '-' || c == '_'
  }

  function BeforeFirst(s: string, c: char): string {
    Split(s, c)[0]
  }

  /** The non-empty value of the first such parameter of a query. */
  function QueryParam(pairs: seq<string>, key: string): Option<string> {
    if pairs == [] then None
    else
      var eq := Find(pairs[0], '=');
      var k := if eq.Some? then pairs[0][..eq.value] else pairs[0];
      var v := if eq.Some? then pairs[0][eq.value + 1..] else "";
      if k == key && v != "" then Some(v) else QueryParam(pairs[1..], key)
  }

  function AfterFirstPrefix(path: string, prefixes: seq<string>): Option<string> {
    if prefixes == [] then None
    else if prefixes[0] <= path then Some(path[|prefixes[0]|..])
    else AfterFirstPrefix(path, prefixes[1..])
  }

  function YoutubeId(host: string, path: string): Option<string> {
    if host == "youtu.be" then Some(BeforeFirst(path, '?'))
    else if "watch" <= path then
      var rest := path[5..];
      var mark := Find(rest, '?');
      QueryParam(Split(if mark.Some? then rest[mark.value + 1..] else "", '&'), "v")
    else match AfterFirstPrefix(path, ["shorts/", "embed/", "v/", "live/"])
      case Some(rest) => Some(BeforeFirst(rest, '/'))
      case None => None
  }

  function RumbleId(path: string): Option<string> {
    if "v" <= path then
      if |path| > 1 && IsDigit(path[1]) then Some(BeforeFirst(path[1..], '-')) else None
    else if "embed/" <= path then Some(BeforeFirst(path[6..], '/'))
    else None
  }

  /** The provider and the video id, from a host in lower case and a path without trailing slashes. */
  function VideoAt(host: string, path: string): (v: Option<(string, string)>)
    ensures v.Some? ==> v.value.0 == "youtube" || v.value.0 == "rumble"
  {
    if host == "youtu.be" || host == "youtube.com" || EndsWith(host, ".youtube.com") then
      match YoutubeId(host, path)
      case Some(id) => if ValidVideoId(id) then Some(("youtube", id)) else None
      case None => None
    else if host == "rumble.com" || EndsWith(host, ".rumble.com") then
      match RumbleId(path)
      case Some(id) => if id != "" && forall c :: c in id ==> IsAlphanumeric(c) then Some(("rumble", id)) else None
      case None => None
    else None
  }

  /** The provider and the video id of a YouTube or Rumble address. */
  function VideoFromUrl(url: string): (v: Option<(string, string)>)
    ensures v.Some? ==> url != "" && url[0] == 'h' && (v.value.0 == "youtube" || v.value.0 == "rumble")
  {
    if !("https://" <= url || "http://" <= url) then None
    else
      var rest := if "https://" <= url then url[8..] else url[7..];
      var slash := Find(rest, '/');
      var host := Lower(if slash.Some? then rest[..slash.value] else rest);
      VideoAt(host, StripTrailing(if slash.Some? then rest[slash.value + 1..] else "", '/'))
  }

  function VideoBlock(provider: string, id: string, url: string): ParsedBlock {
    ParsedBlock(Video, Clip(provider, id, url, NO_METADATA))
  }

  /** A line that is exactly one video address. */
  function ParseVideoLine(line: string): Option<ParsedBlock> {
    var url := Trim(line);
    match VideoFromUrl(url)
    case Some((provider, id)) => Some(VideoBlock(provider, id, url))
    case None => None
  }

  // ----- headings, rules, list markers

  function CountLeading(s: string, c: char): (n: nat)
    ensures n <= |s| && (forall i :: 0 <= i < n ==> s[i] == c) && (n < |s| ==> s[n] != c)
  {
    if s == "" || s[0] != c then 0 else 1 + CountLeading(s[1..], c)
  }

  function ParseHeading(line: string): (r: Option<(nat, string)>)
    ensures r.Some? <==> "#" <= line
    ensures r.Some? ==> 1 <= r.value.0 <= 6
  {
    var level := CountLeading(line, '#');
    if level == 0 then None else Some((if level > 6 then 6 else level, Trim(line[level..])))
  }

  predicate IsHorizontalRule(line: string) {
    |line| >= 3 && forall c :: c in line ==> c == '-' || c == '_' || c == '*'
  }

  function CountDigits(s: string): (n: nat)
    ensures n <= |s| && (forall i :: 0 <= i < n ==> IsDigit(s[i])) && (n < |s| ==> !IsDigit(s[n]))
  {
    if s == "" || !IsDigit(s[0]) then 0 else 1 + CountDigits(s[1..])
  }

  /** Whether the list is ordered, and what follows the marker. */
  function AfterMarker(line: string): Option<(bool, string)> {
    if "-" <= line || "*" <= line || "+" <= line then Some((false, line[1..]))
    else
      var digits := CountDigits(line);
      if digits > 0 && "." <= line[digits..] then Some((true, line[digits + 1..])) else None
  }

  function ParseListMarker(line: string): Option<(bool, string)> {
    match AfterMarker(Trim(line))
    case Some((ordered, rest)) => if Trim(rest) == "" then None else Some((ordered, Trim(rest)))
    case None => None
  }

  // ----- images

  datatype ParsedImage = ParsedImage(src: string, alt: string, size: string, href: string, consumed: nat)

  predicate AllDigits(s: string) {
    forall c :: c in s ==> IsDigit(c)
  }

  predicate IsValidSize(s: string) {
    s != "" &&
    match Find(s, 'x')
    case Some(i) => AllDigits(s[..i]) && AllDigits(s[i + 1..]) && |s| > 1
    case None => AllDigits(s)
  }

  /** Splits a trailing size off an image address. */
  function SplitImageSize(src: string): (string, string) {
    match FindLast(src, '=')
    case Some(eq) =>
      var before, after := src[..eq], src[eq + 1..];
      if before != "" && (before[|before| - 1] == ' ' || before[|before| - 1] == '\t') && IsValidSize(after)
      then (TrimEnd(before), after) else (src, "")
    case None => (src, "")
  }

  /** The address and the size in front of the closing bracket, and where that stands. */
  function ImageAddress(round: string): (r: Option<(string, string, nat)>)
    ensures r.Some? ==> r.value.2 < |round|
  {
    match Find(round, ')')
    case None => None
    case Some(end) =>
      var address := Trim(round[..end]);
      var (src, size) := SplitImageSize(address);
      if address == "" || src == "" then None else Some((src, size, end))
  }

  /** An unlinked image at the start of s.  The consumed length does not count white space between the
      two brackets. */
  function ParsePlainImage(s: string): (r: Option<ParsedImage>)
    ensures r.Some? ==> 0 < r.value.consumed <= |s|
  {
    if !("!" <= s) then None
    else
      var rest := s[1..];
      var close := Find(rest, ']');
      if close.None? || !("[" <= rest) then None
      else
        var alt := rest[1..close.value];
        var after := TrimStart(rest[close.value + 1..]);
        if !("(" <= after) then None
        else
          match ImageAddress(after[1..])
          case None => None
          case Some((src, size, end)) => Some(ParsedImage(src, alt, size, "", 1 + (close.value + 1) + 1 + end + 1))
  }

  /** A possibly linked image at the start of s. */
  function ParseImage(s: string): (r: Option<ParsedImage>)
    ensures r.Some? ==> 0 < r.value.consumed <= |s|
  {
    if "[" <= s then
      var inner := s[1..];
      match ParsePlainImage(inner)
      case None => None
      case Some(plain) =>
        var tail := inner[plain.consumed..];
        if !("](" <= tail) then None
        else
          var close := Find(tail[2..], ')');
          if close.None? then None
          else
            var href := Trim(tail[2..][..close.value]);
            if href == "" then None
            else Some(plain.(href := href, consumed := 1 + plain.consumed + 2 + close.value + 1))
    else ParsePlainImage(s)
  }

  predicate StartsImage(s: string) {
    "!" <= s || "[![" <= s
  }

  /** The images at the start of s, and what is left when the run of images ends. */
  function ImageRun(s: string): (r: (seq<ParsedImage>, string))
    decreases |s|
  {
    match ParseImage(s)
    case None => ([], s)
    case Some(img) =>
      var rest := TrimStart(s[img.consumed..]);
      if rest == "" || !StartsImage(rest) then ([img], rest)
      else
        var (images, left) := ImageRun(rest);
        ([img] + images, left)
  }

  /** A line that consists of images only. */
  function ImageLine(line: string): Option<seq<ParsedImage>> {
    if !StartsImage(line) then None
    else
      var (images, left) := ImageRun(line);
      if images != [] && left == "" then Some(images) else None
  }

  function ImageBlock(img: ParsedImage): ParsedBlock {
    ParsedBlock(Image, Picture(img.src, img.alt, img.size, img.href))
  }

  function ImageBlocks(images: seq<ParsedImage>): seq<ParsedBlock> {
    seq(|images|, i requires 0 <= i < |images| => ImageBlock(images[i]))
  }

  // ----- what a line can be part of

  predicate IsFence(line: string) { "```" <= TrimStart(line) }

  predicate IsCodeLine(line: string) { !IsFence(line) }

  predicate IsQuoteLine(line: string) { ">" <= TrimStart(line) }

  function QuoteOf(line: string): string {
    Trim(StripLeading(TrimStart(line), '>'))
  }

  function QuotesOf(lines: seq<string>): seq<string> {
    seq(|lines|, i requires 0 <= i < |lines| => QuoteOf(lines[i]))
  }

  predicate IsItemLine(line: string, ordered: bool) {
    var t := Trim(line);
    t != "" && ParseListMarker(t).Some? && ParseListMarker(t).value.0 == ordered
  }

  function ItemsOf(lines: seq<string>): seq<string> {
    seq(|lines|, i requires 0 <= i < |lines| =>
      var m := ParseListMarker(Trim(lines[i])); if m.Some? then m.value.1 else "")
  }

  /** The line ends a paragraph. */
  predicate Breaks(line: string) {
    var t := Trim(line);
    t == "" || "#" <= t || ">" <= t || "```" <= t || IsHorizontalRule(t) || ParseListMarker(t).Some?
  }

  predicate IsParagraphLine(line: string) { !Breaks(line) }

  function EndsTrimmed(lines: seq<string>): seq<string> {
    seq(|lines|, i requires 0 <= i < |lines| => TrimEnd(lines[i]))
  }

  /** Lines collected with line feeds between them; nothing is put before the first non-empty line. */
  function Collect(lines: seq<string>): string {
    if lines == [] then ""
    else
      var front := Collect(lines[..|lines| - 1]);
      (if front == "" then "" else front + "\n") + lines[|lines| - 1]
  }

  // ----- the parser

  type Taken = (seq<ParsedBlock>, nat)

  function CodeStep(lines: seq<string>): (r: Taken)
    requires lines != []
    ensures 1 <= r.1 <= |lines|
  {
    var n := Span(lines[1..], IsCodeLine);
    var language := Trim(StripLeading(Trim(lines[0]), '`'));
    ([ParsedBlock(Code, Fenced(language, Join(lines[1..1 + n], "\n")))], if n + 2 > |lines| then |lines| else n + 2)
  }

  function QuoteStep(lines: seq<string>): (r: Taken)
    requires lines != [] && IsQuoteLine(lines[0])
    ensures 1 <= r.1 <= |lines|
  {
    var n := Span(lines, IsQuoteLine);
    ([ParsedBlock(Quote, Content.Text(Collect(QuotesOf(lines[..n]))))], n)
  }

  function ListStep(lines: seq<string>, ordered: bool): (r: Taken)
    requires lines != []
    ensures 1 <= r.1 <= |lines|
  {
    var n := 1 + Span(lines[1..], l => IsItemLine(l, ordered));
    ([ParsedBlock(List(ordered), Items(ItemsOf(lines[..n])))], n)
  }

  function ParagraphStep(lines: seq<string>, html: Html): (r: Taken)
    requires lines != [] && IsParagraphLine(lines[0])
    ensures 1 <= r.1 <= |lines|
  {
    var n := Span(lines, IsParagraphLine);
    var text := Collect(EndsTrimmed(lines[..n]));
    (if html(text).Some? then html(text).value else [ParsedBlock(Paragraph, Content.Text(text))], n)
  }

  /** The blocks that begin at the first line, and how many lines they take: always at least one,
      because a first line that reaches the last branch meets none of the tests that end a paragraph. */
  function Step(lines: seq<string>, html: Html): (r: Taken)
    requires lines != []
    ensures 1 <= r.1 <= |lines|
  {
    var t := Trim(lines[0]);
    if t == "" then ([], 1)
    else if ParseVideoLine(t).Some? then ([ParseVideoLine(t).value], 1)
    else if "```" <= t then CodeStep(lines)
    else if ParseHeading(t).Some? then
      var (level, text) := ParseHeading(t).value;
      ([ParsedBlock(Heading(level), Content.Text(text))], 1)
    else if ">" <= t then
      PrefixOfTrim(">", lines[0]);
      QuoteStep(lines)
    else if IsHorizontalRule(t) then ([ParsedBlock(Divider, Empty)], 1)
    else if ImageLine(t).Some? then (ImageBlocks(ImageLine(t).value), 1)
    else if ParseListMarker(t).Some? then ListStep(lines, ParseListMarker(t).value.0)
    else ParagraphStep(lines, html)
  }

  function ParseLines(lines: seq<string>, html: Html): seq<ParsedBlock> {
    if lines == [] then []
    else
      var (blocks, n) := Step(lines, html);
      blocks + ParseLines(lines[n..], html)
  }

  function Parse(source: string, html: Html): seq<ParsedBlock> {
    ParseLines(Lines(source), html)
  }
}
