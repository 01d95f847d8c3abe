/** The document model: blocks with stable ids that point at immutable versions. */
module Blocks {
  import opened Options

  datatype BlockKind =
    | Paragraph
    | Heading(level: nat)
    | Image
    | Quote
    | Code
    | CallToAction
    | Divider
    | List(ordered: bool)
    | Video

  /** What a video block carries besides its identity. */
  datatype Metadata = Metadata(title: string, thumbnail: string, width: string, height: string)

  const NO_METADATA := Metadata("", "", "", "")

  /** The payload of a version.  An absent text field and an empty one are the same. */
  datatype Content =
    | Text(text: string)
    | Fenced(language: string, code: string)
    | Picture(src: string, alt: string, size: string, href: string)
    | Items(items: seq<string>)
    | Clip(provider: string, id: string, url: string, meta: Metadata)
    | Empty

  datatype ParsedBlock = ParsedBlock(kind: BlockKind, content: Content)

  datatype BlockVersion = BlockVersion(id: nat, blockId: nat, content: Content, createdAt: int)

  datatype Block = Block(id: nat, kind: BlockKind, versionId: nat, position: int, createdAt: int, updatedAt: int)

  function FindVersion(versions: seq<BlockVersion>, id: nat): (v: Option<BlockVersion>)
    ensures v.Some? ==> v.value in versions && v.value.id == id
    ensures v.None? ==> forall w :: w in versions ==> w.id != id
  {
    if versions == [] then None
    else if versions[0].id == id then Some(versions[0])
    else FindVersion(versions[1..], id)
  }

  /** Of two versions with one id the first is found. */
  lemma {:induction false} FirstVersion(versions: seq<BlockVersion>, i: nat)
    requires i < |versions| && forall j :: 0 <= j < i ==> versions[j].id != versions[i].id
    ensures FindVersion(versions, versions[i].id) == Some(versions[i])
  {
    if i > 0 { FirstVersion(versions[1..], i - 1); }
  }

  /** The content currently rendered for a block. */
  function CurrentContent(b: Block, versions: seq<BlockVersion>): Option<Content> {
    match FindVersion(versions, b.versionId)
    case Some(v) => Some(v.content)
    case None => None
  }

  /** What identifies an embedded video; the metadata is left out. */
  function VideoIdentity(c: Content): (string, string, string) {
    if c.Clip? then (c.provider, c.id, c.url) else ("", "", "")
  }

  /** Equality of contents as far as a block of the given kind is concerned. */
  predicate SameContent(kind: BlockKind, c: Content, d: Content) {
    if kind.Video? then VideoIdentity(c) == VideoIdentity(d) else c == d
  }

  ghost predicate DistinctVersions(versions: seq<BlockVersion>) {
    forall i, j :: 0 <= i < j < |versions| ==> versions[i].id != versions[j].id
  }

  ghost predicate DistinctBlocks(blocks: seq<Block>) {
    forall i, j :: 0 <= i < j < |blocks| ==> blocks[i].id != blocks[j].id
  }

  /** Among distinct versions, the one with a given id is the one found. */
  lemma FindUnique(versions: seq<BlockVersion>, v: BlockVersion)
    requires DistinctVersions(versions) && v in versions
    ensures FindVersion(versions, v.id) == Some(v)
  {
    var w := FindVersion(versions, v.id);
    var i :| 0 <= i < |versions| && versions[i] == v;
    var j :| 0 <= j < |versions| && versions[j] == w.value;
    assert i == j;
  }

  /** Each block's pointer leads to a version of that very block, and everything is older than the
      next id to be handed out. */
  ghost predicate Consistent(blocks: seq<Block>, versions: seq<BlockVersion>, next: nat) {
    && DistinctBlocks(blocks)
    && DistinctVersions(versions)
    && (forall v :: v in versions ==> v.id < next && v.blockId < next)
    && (forall b :: b in blocks ==>
          b.id < next && exists v :: v in versions && v.id == b.versionId && v.blockId == b.id)
  }
}
