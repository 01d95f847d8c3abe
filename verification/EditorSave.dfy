/** Opening a document in the editor and saving it. */
module EditorSave {
  import opened Options
  import opened Blocks
  import opened BlockMerge
  import opened BlockStore
  import opened DocumentHistory
  import opened Markdown
  import opened MarkdownParser
  import opened MarkdownPrinter
  import opened RoundTrip
  import opened Text

  /** A block without what its video provider adds to it. */
  function Bare(b: ParsedBlock): ParsedBlock {
    if b.kind.Video? && b.content.Clip? then b.(content := b.content.(meta := NO_METADATA)) else b
  }

  function AllBare(bs: seq<ParsedBlock>): seq<ParsedBlock> {
    seq(|bs|, i requires 0 <= i < |bs| => Bare(bs[i]))
  }

  /** What filling in video metadata may do to freshly parsed blocks. */
  ghost predicate Enriched(parsed: seq<ParsedBlock>, enriched: seq<ParsedBlock>) {
    && |parsed| == |enriched|
    && forall i :: 0 <= i < |parsed| ==>
         enriched[i].kind == parsed[i].kind && SameContent(parsed[i].kind, parsed[i].content, enriched[i].content)
  }

  /** The blocks with the content their version pointer leads to. */
  function Contents(blocks: seq<Block>, versions: seq<BlockVersion>): seq<ParsedBlock> {
    seq(|blocks|, i requires 0 <= i < |blocks| =>
      var c := CurrentContent(blocks[i], versions);
      ParsedBlock(blocks[i].kind, if c.Some? then c.value else Empty))
  }

  lemma {:induction false} ShownIsContents(blocks: seq<Block>, versions: seq<BlockVersion>)
    requires forall b :: b in blocks ==> CurrentContent(b, versions).Some?
    ensures Shown(blocks, versions) == Contents(blocks, versions)
  {
    hide CurrentContent;
    if blocks != [] {
      ShownIsContents(blocks[..|blocks| - 1], versions);
      assert blocks[|blocks| - 1] in blocks;
    }
  }

  /** A block whose content cannot be found leaves nothing in the editor's text. */
  lemma {:induction false} UnresolvedIsSkipped(before: seq<Block>, b: Block, after: seq<Block>,
                                               versions: seq<BlockVersion>)
    requires forall v :: v in versions ==> v.id != b.versionId
    ensures Shown(before + [b] + after, versions) == Shown(before + after, versions)
  {
    hide CurrentContent;
    var all, rest := before + [b] + after, before + after;
    if after == [] {
      Unresolved(b, versions);
      assert all[..|all| - 1] == before && rest == before;
    } else {
      var front := after[..|after| - 1];
      UnresolvedIsSkipped(before, b, front, versions);
      assert all[..|all| - 1] == before + [b] + front && rest[..|rest| - 1] == before + front;
    }
  }

  lemma Unresolved(b: Block, versions: seq<BlockVersion>)
    requires forall v :: v in versions ==> v.id != b.versionId
    ensures CurrentContent(b, versions) == None
  {
    hide FindVersion;
  }

  /** The editor does not show video metadata. */
  lemma BarePrintsSame(b: ParsedBlock, html: Html)
    requires Printable(Bare(b), html)
    ensures PrintBlock(b) == PrintBlock(Bare(b))
  {
    hide VideoFromUrl, PrintableParagraph, PrintableQuote, PrintableCode, PrintableImage, PrintableItems;
    if b.kind.Video? && b.content.Clip? {
      VideoProvider(b.content.url);
    }
  }

  lemma VideoProvider(url: string)
    ensures VideoFromUrl(url).Some? ==> VideoFromUrl(url).value.0 == "youtube" || VideoFromUrl(url).value.0 == "rumble"
  {
    hide VideoAt, Lower;
  }

  /** What the editor's form may submit for an unedited text. */
  predicate Submitted(text: string, posted: string) {
    posted == text || posted == WithReturns(text)
  }

  lemma PrintsBare(contents: seq<ParsedBlock>, html: Html)
    requires AllPrintable(AllBare(contents), html)
    ensures Print(contents) == Print(AllBare(contents))
  {
    hide Printable, PrintBlock;
    var bare := AllBare(contents);
    forall i | 0 <= i < |contents| ensures PrintBlock(contents[i]) == PrintBlock(bare[i]) {
      assert bare[i] in bare;
      BarePrintsSame(contents[i], html);
    }
    assert PrintBlocks(contents) == PrintBlocks(bare);
  }

  /** The text that comes back from the form parses to the contents without video metadata. */
  lemma PostedParsesBare(contents: seq<ParsedBlock>, posted: string, html: Html)
    requires AllPrintable(AllBare(contents), html) && Submitted(Print(contents), posted)
    ensures Parse(posted, html) == AllBare(contents)
  {
    hide AllPrintable, AllBare, Print, Parse, WithReturns;
    PrintsBare(contents, html);
    PrintThenParse(AllBare(contents), html);
    PostedParsesSame(AllBare(contents), html);
  }

  /** Metadata filled in again or not, the parsed blocks say what the contents say. */
  lemma EnrichedSaysSame(contents: seq<ParsedBlock>, parsed: seq<ParsedBlock>)
    requires Enriched(AllBare(contents), parsed)
    ensures |parsed| == |contents|
    ensures forall i :: 0 <= i < |contents| ==>
              && contents[i].kind == parsed[i].kind
              && SameContent(parsed[i].kind, contents[i].content, parsed[i].content)
  {
  }

  /** Saving the unedited text of a document of printable blocks keeps every id, version pointer, kind
      and time stamp, numbers the blocks from 0, mints no version and uses up no id. */
  lemma UneditedMerge(blocks: seq<Block>, versions: seq<BlockVersion>, next: nat, posted: string,
                      parsed: seq<ParsedBlock>, now: int, html: Html)
    requires forall b :: b in blocks ==> CurrentContent(b, versions).Some?
    requires AllPrintable(AllBare(Contents(blocks, versions)), html)
    requires Submitted(Print(Shown(blocks, versions)), posted)
    requires Enriched(Parse(posted, html), parsed)
    ensures Edit(blocks, versions, parsed, now, next).Result()
         == Merged(seq(|blocks|, j requires 0 <= j < |blocks| => blocks[j].(position := j)), [], next)
  {
    hide CurrentContent, SameContent, AllPrintable, AllBare, Parse, Print, Submitted, Enriched;
    var contents := Contents(blocks, versions);
    ShownIsContents(blocks, versions);
    PostedParsesBare(contents, posted, html);
    EnrichedSaysSame(contents, parsed);
    forall j | 0 <= j < |blocks|
      ensures var c := CurrentContent(blocks[j], versions);
              blocks[j].kind == parsed[j].kind && c.Some? && SameContent(parsed[j].kind, c.value, parsed[j].content)
    {
      assert blocks[j] in blocks && contents[j].kind == parsed[j].kind;
    }
    Edit(blocks, versions, parsed, now, next).NothingChanged();
  }

  /** In the store, such a save changes nothing that can be read: of any document. */
  lemma UneditedSaveIsNoOp(s: Store, step: DocumentHistory.Step, posted: string, html: Html)
    requires Sound(s) && Numbered(s.rows) && step.Save? && Reads(s, step.doc, step.blocks, step.listing)
    requires AllPrintable(AllBare(Contents(step.blocks, step.listing)), html)
    requires Submitted(Print(Shown(step.blocks, step.listing)), posted)
    requires Enriched(Parse(posted, html), step.parsed)
    ensures var s' := Apply(s, step);
            && Enabled(s, step) && s'.versions == s.versions && s'.next == s.next
            && forall d, blocks, vs :: Reads(s, d, blocks, vs) ==> Reads(s', d, blocks, vs)
  {
    hide Printable, Parse, Print, AllPrintable, Enriched, Submitted, Numbered, Sound, History;
    ReadIsRemembered(s, step.doc, step.blocks, step.listing);
    forall b | b in step.blocks ensures CurrentContent(b, step.listing).Some? {
      var v :| v in step.listing && v.id == b.versionId;
      FindUnique(step.listing, v);
    }
    UneditedMerge(step.blocks, step.listing, s.next, posted, step.parsed, step.now, html);
    var r := EditOf(s, step).Result();
    LoadedKeepsPlaces(s, step.doc, step.blocks);
    assert r.blocks == step.blocks;
    FreshSaveReads(s, step);
    assert step.listing + [] == step.listing;
    forall d, blocks, vs | Reads(s, d, blocks, vs) ensures Reads(Apply(s, step), d, blocks, vs) {
      if d == step.doc {
        LoadedIsUnique(s.rows, d, blocks, step.blocks);
      } else {
        SaveLeavesOthers(s, step, d, blocks, vs);
      }
    }
  }

  lemma LoadedKeepsPlaces(s: Store, doc: nat, blocks: seq<Block>)
    requires Sound(s) && Numbered(s.rows) && IsLoaded(s.rows, doc, blocks)
    ensures |blocks| <= BAND && forall i :: 0 <= i < |blocks| ==> blocks[i].position == i
  {
    hide Numbered, HasOwnVersion;
    forall i | 0 <= i < |blocks| ensures blocks[i].position == i < BAND {
      LoadedPositions(s.rows, doc, blocks, i);
      assert blocks[i] in blocks;
    }
    if blocks != [] { assert blocks[|blocks| - 1].position < BAND; }
  }

  /** So it is in every store that can be reached from an empty one. */
  lemma UneditedSaveInRun(run: seq<Store>, steps: seq<DocumentHistory.Step>, n: nat, step: DocumentHistory.Step,
                          posted: string, html: Html)
    requires IsRun(run, steps) && run[0] == EMPTY && n <= |steps|
    requires step.Save? && Reads(run[n], step.doc, step.blocks, step.listing)
    requires AllPrintable(AllBare(Contents(step.blocks, step.listing)), html)
    requires Submitted(Print(Shown(step.blocks, step.listing)), posted)
    requires Enriched(Parse(posted, html), step.parsed)
    ensures Enabled(run[n], step)
    ensures var s, s' := run[n], Apply(run[n], step);
            && s'.versions == s.versions && s'.next == s.next
            && forall d, blocks, vs :: Reads(s, d, blocks, vs) ==> Reads(s', d, blocks, vs)
  {
    hide Printable, Parse, Print, AllPrintable, Enriched, Submitted, NextInRun, Apply, Reads;
    RunKeepsSound(run, steps, n, n);
    RunKeepsNumbered(run, steps, n);
    UneditedSaveIsNoOp(run[n], step, posted, html);
  }

  /** A document held open by a request.  What it holds was read some time before. */
  class OpenDocument {
    const id: nat
    var blocks: seq<Block>
    var versions: seq<BlockVersion>

    constructor (id: nat, blocks: seq<Block>, versions: seq<BlockVersion>)
      ensures this.id == id && this.blocks == blocks && this.versions == versions
    {
      this.id, this.blocks, this.versions := id, blocks, versions;
    }

    /** Parse, fill in video metadata, merge, persist; then the open document follows. */
    method ApplyMarkdown(table: BlockTable, markdown: string, html: Html, enrich: seq<ParsedBlock> -> seq<ParsedBlock>,
                         now: int, next: nat, parkedOrder: seq<nat>, liveOrder: seq<nat>)
      returns (ok: bool, next': nat)
      requires Sound(Store(table.rows, table.versions, next))
      requires Remembers(Store(table.rows, table.versions, next), id, blocks, versions)
      requires |enrich(Parse(markdown, html))| <= BAND
      requires Lists(table.rows, id, parkedOrder, true) && Lists(table.rows, id, liveOrder, false)
      modifies this, table
      ensures ok <==> Movable(old(table.rows), parkedOrder)
      ensures !ok ==>
                && blocks == old(blocks) && versions == old(versions) && next' == next
                && table.rows == old(table.rows) && table.versions == old(table.versions)
      ensures ok ==>
                var step := Save(id, old(blocks), old(versions), enrich(Parse(markdown, html)), now);
                && Store(table.rows, table.versions, next')
                    == Apply(Store(old(table.rows), old(table.versions), next), step)
                && Sound(Store(table.rows, table.versions, next'))
                && IsLoaded(table.rows, id, blocks)
                && versions == old(versions)
                             + EditOf(Store(old(table.rows), old(table.versions), next), step).Result().versions
                && (old(Reads(Store(table.rows, table.versions, next), id, blocks, versions)) ==>
                      Reads(Store(table.rows, table.versions, next'), id, blocks, versions))
    {
      hide Parse, Saved, Movable, Lists, Savable, Tidy, Sound, Reads, DistinctVersions, Remembers, IsLoaded;
      ghost var s := Store(table.rows, table.versions, next);
      var parsed := ParseMarkdown(markdown, html);
      parsed := enrich(parsed);
      ghost var step := Save(id, blocks, versions, parsed, now);
      var merged := MergeBlocks(blocks, versions, parsed, now, next);
      SoundIsTidy(s);
      MergeIsSavable(s, step);
      SavedVersionsDistinct(s, step);
      ok := table.SaveDocumentBlocks(id, merged.blocks, merged.versions, parkedOrder, liveOrder);
      next' := next;
      if ok {
        SaveIsSound(s, step);
        SaveThenLoad(s.rows, id, merged.blocks);
        if Reads(s, id, blocks, versions) {
          FreshSaveReads(s, step);
        }
        blocks := merged.blocks;
        versions := versions + merged.versions;
        next' := merged.next;
      }
    }
  }
}
