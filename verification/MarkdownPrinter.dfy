/** Turning a document's blocks back into Markdown for the editor. */
module MarkdownPrinter {
  import opened Blocks
  import opened Text

  function TextOf(c: Content): string {
    if c.Text? then c.text else ""
  }

  function PrintImage(src: string, alt: string, size: string, href: string): string {
    var image := "![" + alt + "](" + (if size == "" then src else src + " =" + size) + ")";
    if href == "" then image else "[" + image + "](" + href + ")"
  }

  function Attribute(name: string, value: string): string {
    if value == "" then "" else " " + name + "=\"" + value + "\""
  }

  function PrintVideo(c: Content): string {
    if !c.Clip? || c.url == "" then ""
    else if c.provider == "youtube" || c.provider == "rumble" then c.url
    else if c.provider == "iframe" then
      "<iframe src=\"" + c.url + "\"" + Attribute("title", c.meta.title) + Attribute("width", c.meta.width)
      + Attribute("height", c.meta.height) + " allowfullscreen></iframe>"
    else ""
  }

  function Prefixed(before: string, lines: seq<string>): seq<string> {
    seq(|lines|, i requires 0 <= i < |lines| => before + lines[i])
  }

  function Marker(ordered: bool): string {
    if ordered then "1. " else "- "
  }

  function PrintBlock(b: ParsedBlock): string {
    match b.kind
    case Heading(level) => Repeat('#', level) + " " + TextOf(b.content)
    case Quote => Join(Prefixed("> ", Split(TextOf(b.content), '\n')), "\n")
    case Code =>
      var (language, code) := if b.content.Fenced? then (b.content.language, b.content.code) else ("", "");
      "```" + language + "\n" + code + "\n```"
    case Image =>
      if b.content.Picture? then PrintImage(b.content.src, b.content.alt, b.content.size, b.content.href)
      else PrintImage("", "", "", "")
    case List(ordered) => Join(Prefixed(Marker(ordered), if b.content.Items? then b.content.items else []), "\n")
    case Divider => "---"
    case Video => PrintVideo(b.content)
    case Paragraph => TextOf(b.content)
    case CallToAction => TextOf(b.content)
  }

  function PrintBlocks(blocks: seq<ParsedBlock>): seq<string> {
    seq(|blocks|, i requires 0 <= i < |blocks| => PrintBlock(blocks[i]))
  }

  function Print(blocks: seq<ParsedBlock>): string {
    Join(PrintBlocks(blocks), "\n\n")
  }

  /** The blocks of a document whose content can be found, with that content. */
  function Shown(blocks: seq<Block>, versions: seq<BlockVersion>): seq<ParsedBlock> {
    if blocks == [] then []
    else
      var last := blocks[|blocks| - 1];
      var c := CurrentContent(last, versions);
      Shown(blocks[..|blocks| - 1], versions) + if c.Some? then [ParsedBlock(last.kind, c.value)] else []
  }

  method BlocksToMarkdown(blocks: seq<Block>, versions: seq<BlockVersion>) returns (text: string)
    ensures text == Print(Shown(blocks, versions))
  {
    hide PrintBlock, CurrentContent;
    var parts := [];
    for i := 0 to |blocks|
      invariant parts == PrintBlocks(Shown(blocks[..i], versions))
    {
      assert blocks[..i + 1][..i] == blocks[..i];
      var c := CurrentContent(blocks[i], versions);
      if c.Some? {
        var b := ParsedBlock(blocks[i].kind, c.value);
        assert PrintBlocks(Shown(blocks[..i], versions) + [b]) == parts + [PrintBlock(b)];
        parts := parts + [PrintBlock(b)];
      }
    }
    assert blocks[..|blocks|] == blocks;
    text := Join(parts, "\n\n");
  }

  // ----- what has no form in Markdown

  /** Attributes of a tag; one without a value is left out. */
  function Tagged(attributes: seq<(string, string)>): string {
    if attributes == [] then ""
    else
      var (name, value) := attributes[0];
      (if value == "" then "" else " " + name + "=\"" + value + "\"") + Tagged(attributes[1..])
  }

  /** An embedded frame is printed as one tag. */
  lemma EmbedPrints(id: string, url: string, meta: Metadata)
    requires url != ""
    ensures PrintBlock(ParsedBlock(Video, Clip("iframe", id, url, meta)))
         == "<iframe" + Tagged([("src", url), ("title", meta.title), ("width", meta.width), ("height", meta.height)])
                      + " allowfullscreen></iframe>"
  {
    hide Tagged, Attribute;
    FrameAttributes(url, meta);
    var start, title := "<iframe src=\"" + url + "\"", Attribute("title", meta.title);
    var width, height := Attribute("width", meta.width), Attribute("height", meta.height);
    assert "<iframe" + (" src=\"" + url + "\"") == start by { FrameStart(url); }
    Regroup(start, title, width, height);
    Regroup("<iframe", " src=\"" + url + "\"", title, width + height);
  }

  lemma FrameStart(url: string)
    ensures "<iframe" + (" src=\"" + url + "\"") == "<iframe src=\"" + url + "\""
  {
    assert "<iframe" + " src=\"" == "<iframe src=\"";
    assert "<iframe" + (" src=\"" + (url + "\"")) == "<iframe" + " src=\"" + (url + "\"");
  }

  lemma Regroup(a: string, b: string, c: string, d: string)
    ensures a + b + c + d == a + (b + (c + d)) && a + (b + (c + d)) == a + b + (c + d)
  {
    assert a + b + c == a + (b + c);
    assert a + (b + c) + d == a + (b + c + d);
    assert b + c + d == b + (c + d);
  }

  lemma FrameAttributes(url: string, meta: Metadata)
    requires url != ""
    ensures Tagged([("src", url), ("title", meta.title), ("width", meta.width), ("height", meta.height)])
         == " src=\"" + url + "\"" + (Attribute("title", meta.title)
                                      + (Attribute("width", meta.width) + Attribute("height", meta.height)))
  {
    var src, title := ("src", url), ("title", meta.title);
    var width, height := ("width", meta.width), ("height", meta.height);
    TaggedCons("src", url, [title, width, height]);
    TaggedCons("title", meta.title, [width, height]);
    TaggedCons("width", meta.width, [height]);
    TaggedCons("height", meta.height, []);
    assert [src] + [title, width, height] == [src, title, width, height];
    assert [title] + [width, height] == [title, width, height];
    assert [width] + [height] == [width, height];
    assert [height] + [] == [height];
    assert Attribute("height", meta.height) + "" == Attribute("height", meta.height);
    assert " " + "src" + "=\"" == " src=\"";
  }

  lemma TaggedCons(name: string, value: string, rest: seq<(string, string)>)
    ensures Tagged([(name, value)] + rest) == Attribute(name, value) + Tagged(rest)
  {
    assert ([(name, value)] + rest)[1..] == rest;
  }

  /** Videos of an unknown provider or without an address leave an empty text, and a call to action only its
      own. */
  lemma OthersPrint(text: string, provider: string, id: string, url: string, meta: Metadata)
    ensures PrintBlock(ParsedBlock(CallToAction, Content.Text(text))) == text
    ensures url == "" || (provider != "youtube" && provider != "rumble" && provider != "iframe") ==>
              PrintBlock(ParsedBlock(Video, Clip(provider, id, url, meta))) == ""
  {
  }
}
