/** Documents over any run of edits, variant creations and promotions: the block and version tables
refine a plain document.  A save may work on an earlier read of the run: other steps can come between
loading a document and storing it. */
module DocumentHistory {
  import opened Options
  import opened Blocks
  import opened BlockMerge
  import opened BlockStore

  datatype Store = Store(rows: Table, versions: seq<BlockVersion>, next: nat)

  ghost predicate HasOwnVersion(s: Store, x: nat)
    requires x in s.rows
  {
    exists v :: v in s.versions && v.id == s.rows[x].versionId && v.blockId == x
  }

  /** What every reachable store satisfies. */
  ghost predicate Sound(s: Store) {
    && Tidy(s.rows)
    && DistinctVersions(s.versions)
    && (forall v :: v in s.versions ==> v.id < s.next && v.blockId in s.rows)
    && (forall x :: x in s.rows ==> x < s.next && HasOwnVersion(s, x))
  }

  function VersionSet(versions: seq<BlockVersion>): set<BlockVersion> {
    set v | v in versions
  }

  /** The versions of all blocks a document ever had. */
  function History(s: Store, doc: nat): set<BlockVersion> {
    set v | v in s.versions && v.blockId in s.rows && s.rows[v.blockId].doc == doc
  }

  /** The answer to the query for a document's versions: its history, listed in some order. */
  ghost predicate ListsHistory(s: Store, doc: nat, listing: seq<BlockVersion>) {
    DistinctVersions(listing) && VersionSet(listing) == History(s, doc)
  }

  /** What a read of the document returns when nothing comes between its two queries: the live blocks in
      order, and the history. */
  ghost predicate Reads(s: Store, doc: nat, blocks: seq<Block>, listing: seq<BlockVersion>) {
    IsLoaded(s.rows, doc, blocks) && ListsHistory(s, doc, listing)
  }

  /** What earlier read blocks still offer in a later store: known ids, owners and times, and pointers
      to stored versions. */
  ghost predicate RemembersBlocks(s: Store, doc: nat, blocks: seq<Block>) {
    && DistinctBlocks(blocks)
    && forall b :: b in blocks ==>
         && b.id < s.next && b.id in s.rows && s.rows[b.id].doc == doc && s.rows[b.id].createdAt == b.createdAt
         && exists v :: v in s.versions && v.id == b.versionId && v.blockId == b.id
  }

  /** What an earlier read still offers in a later store. */
  ghost predicate Remembers(s: Store, doc: nat, blocks: seq<Block>, listing: seq<BlockVersion>) {
    && Consistent(blocks, listing, s.next)
    && (forall b :: b in blocks ==> b.id in s.rows && s.rows[b.id].doc == doc && s.rows[b.id].createdAt == b.createdAt)
    && VersionSet(listing) <= History(s, doc)
  }

  datatype Step =
    | Save(doc: nat, blocks: seq<Block>, listing: seq<BlockVersion>, parsed: seq<ParsedBlock>, now: int)
    | AddVersion(block: nat, content: Content, now: int)
    | Repoint(block: nat, version: BlockVersion, now: int)

  function EditOf(s: Store, step: Step): Edit
    requires step.Save?
  {
    Edit(step.blocks, step.listing, step.parsed, step.now, s.next)
  }

  ghost predicate Enabled(s: Store, step: Step) {
    match step
    case Save(doc, blocks, listing, parsed, now) => Remembers(s, doc, blocks, listing) && |parsed| <= BAND
    case AddVersion(block, content, now) => block in s.rows
    case Repoint(block, version, now) => block in s.rows && version in s.versions && version.blockId == block
  }

  function Apply(s: Store, step: Step): Store {
    match step
    case Save(doc, blocks, listing, parsed, now) =>
      var r := EditOf(s, step).Result();
      Store(Saved(s.rows, doc, r.blocks), s.versions + r.versions, r.next)
    case AddVersion(block, content, now) =>
      s.(versions := s.versions + [BlockVersion(s.next, block, content, now)], next := s.next + 1)
    case Repoint(block, version, now) =>
      if block in s.rows
      then s.(rows := s.rows[block := s.rows[block].(versionId := version.id, updatedAt := now)])
      else s
  }

  // ----- a read gives the merge what it needs

  lemma BlocksAreRemembered(s: Store, doc: nat, blocks: seq<Block>)
    requires Sound(s) && IsLoaded(s.rows, doc, blocks)
    ensures RemembersBlocks(s, doc, blocks)
  {
    forall i, j | 0 <= i < j < |blocks| ensures blocks[i].id != blocks[j].id {
      assert blocks[i] in blocks && blocks[j] in blocks;
    }
    forall b | b in blocks
      ensures b.id < s.next && exists v :: v in s.versions && v.id == b.versionId && v.blockId == b.id
    {
      assert Live(s.rows, doc, b.id) && HasOwnVersion(s, b.id);
    }
  }

  /** Blocks read earlier and a history listed now are together what a merge needs. */
  lemma ListingCompletesRead(s: Store, doc: nat, blocks: seq<Block>, listing: seq<BlockVersion>)
    requires Sound(s) && RemembersBlocks(s, doc, blocks) && ListsHistory(s, doc, listing)
    ensures Remembers(s, doc, blocks, listing)
  {
    hide Tidy, HasOwnVersion;
    forall v | v in listing ensures v.id < s.next && v.blockId < s.next {
      assert v in VersionSet(listing);
    }
    forall b | b in blocks ensures exists v :: v in listing && v.id == b.versionId && v.blockId == b.id {
      var v :| v in s.versions && v.id == b.versionId && v.blockId == b.id;
      assert v in History(s, doc);
    }
  }

  lemma ReadIsRemembered(s: Store, doc: nat, blocks: seq<Block>, listing: seq<BlockVersion>)
    requires Sound(s) && Reads(s, doc, blocks, listing)
    ensures Remembers(s, doc, blocks, listing)
  {
    hide Sound, IsLoaded, ListsHistory, RemembersBlocks, Remembers;
    BlocksAreRemembered(s, doc, blocks);
    ListingCompletesRead(s, doc, blocks, listing);
  }

  lemma MergeIsSavable(s: Store, step: Step)
    requires Sound(s) && step.Save? && Enabled(s, step)
    ensures Savable(s.rows, step.doc, EditOf(s, step).Result().blocks)
  {
    var e := EditOf(s, step);
    var r := e.Result();
    e.EditKeepsDocument();
    forall b | b in r.blocks && b.id in s.rows
      ensures s.rows[b.id].doc == step.doc && s.rows[b.id].createdAt == b.createdAt
    {
      var j :| 0 <= j < |r.blocks| && r.blocks[j] == b;
      e.IdRange(j);
      var p := e.Partner(j);
      assert p.Some?;
      assert step.blocks[p.value] in step.blocks;
      assert b == e.BlockAt(j);
    }
  }

  // ----- each step

  lemma SavedVersionsDistinct(s: Store, step: Step)
    requires Sound(s) && step.Save? && Enabled(s, step)
    ensures DistinctVersions(Apply(s, step).versions)
    ensures forall v :: v in Apply(s, step).versions ==> v.id < Apply(s, step).next
  {
    var e := EditOf(s, step);
    var old_, new_ := s.versions, e.Result().versions;
    e.Minted(|step.parsed|);
    e.NextGrows(0, |step.parsed|);
    forall i, j | 0 <= i < |old_| && 0 <= j < |new_| ensures old_[i].id != new_[j].id {
      assert old_[i] in old_ && new_[j] in new_;
    }
  }

  lemma SaveIsSound(s: Store, step: Step)
    requires Sound(s) && step.Save? && Enabled(s, step)
    ensures Sound(Apply(s, step))
  {
    var blocks, s' := EditOf(s, step).Result().blocks, Apply(s, step);
    MergeIsSavable(s, step);
    SavedTidy(s.rows, step.doc, blocks);
    SavedVersionsDistinct(s, step);
    forall v | v in s'.versions ensures v.blockId in s'.rows {
      if v in s.versions { SavedAt(s.rows, step.doc, blocks, v.blockId); } else { NewVersionHasRow(s, step, v); }
    }
    forall x | x in s'.rows ensures x < s'.next && HasOwnVersion(s', x) {
      SavedHasVersion(s, step, x);
    }
  }

  lemma NewVersionHasRow(s: Store, step: Step, v: BlockVersion)
    requires Sound(s) && step.Save? && Enabled(s, step)
    requires v in EditOf(s, step).Result().versions
    ensures v.blockId in Apply(s, step).rows && Apply(s, step).rows[v.blockId].doc == step.doc
  {
    var e := EditOf(s, step);
    var r := e.Result();
    MergeIsSavable(s, step);
    e.NewVersions(v);
    var j :| 0 <= j < |step.parsed|
        && v == BlockVersion(r.blocks[j].versionId, r.blocks[j].id, step.parsed[j].content, step.now);
    assert r.blocks[j] in r.blocks;
    SavedAt(s.rows, step.doc, r.blocks, v.blockId);
  }

  /** The version a saved block points at: one of the history or a new one. */
  lemma VersionOfBlock(s: Store, step: Step, j: nat) returns (v: BlockVersion)
    requires step.Save? && Enabled(s, step) && j < |step.parsed|
    ensures var r := EditOf(s, step).Result();
            && v in step.listing + r.versions && (v in History(s, step.doc) || v in r.versions)
            && v.id == r.blocks[j].versionId && v.blockId == r.blocks[j].id
  {
    hide CurrentContent, SameContent, Consistent, History;
    var e := EditOf(s, step);
    e.ContentIsParsed(j);
    v :| v in step.listing + e.Result().versions && v.id == e.BlockAt(j).versionId && v.blockId == e.BlockAt(j).id;
    if v in step.listing { assert v in VersionSet(step.listing); }
  }

  lemma SavedBlockHasVersion(s: Store, step: Step, j: nat)
    requires Sound(s) && step.Save? && Enabled(s, step) && j < |step.parsed|
    ensures var s', b := Apply(s, step), EditOf(s, step).Result().blocks[j];
            b.id in s'.rows && b.id < s'.next && HasOwnVersion(s', b.id)
  {
    hide Saved, Sound, Savable, Remembers, Consistent;
    var v := VersionOfBlock(s, step, j);
    var r, s' := EditOf(s, step).Result(), Apply(s, step);
    MergeIsSavable(s, step);
    SoundIsTidy(s);
    SavedIdsAreOld(s, step, j);
    assert r.blocks[j] in r.blocks;
    SavedAt(s.rows, step.doc, r.blocks, r.blocks[j].id);
    assert v in s'.versions;
  }

  lemma SavedIdsAreOld(s: Store, step: Step, j: nat)
    requires step.Save? && Enabled(s, step) && j < |step.parsed|
    ensures EditOf(s, step).Result().blocks[j].id < Apply(s, step).next
  {
    var e := EditOf(s, step);
    e.EditKeepsDocument();
    assert e.Result().blocks[j] in e.Result().blocks;
  }

  lemma SavedHasVersion(s: Store, step: Step, x: nat)
    requires Sound(s) && step.Save? && Enabled(s, step)
    requires x in Apply(s, step).rows
    ensures x < Apply(s, step).next && HasOwnVersion(Apply(s, step), x)
  {
    hide Saved, Savable, Remembers;
    var r, s' := EditOf(s, step).Result(), Apply(s, step);
    if j :| 0 <= j < |r.blocks| && r.blocks[j].id == x {
      SavedBlockHasVersion(s, step, j);
    } else {
      MergeIsSavable(s, step);
      SavedAt(s.rows, step.doc, r.blocks, x);
      NextStays(s, step);
      assert HasOwnVersion(s, x);
      var v :| v in s.versions && v.id == s.rows[x].versionId && v.blockId == x;
      assert v in s'.versions;
    }
  }

  lemma AddVersionIsSound(s: Store, step: Step)
    requires Sound(s) && step.AddVersion? && Enabled(s, step)
    ensures Sound(Apply(s, step))
  {
    hide Tidy;
    var s' := Apply(s, step);
    OwnVersionsStay(s, s');
  }

  lemma PointerKeepsTidy(t: Table, x: nat, r: Row)
    requires Tidy(t) && x in t && r.doc == t[x].doc && r.position == t[x].position
    ensures Tidy(t[x := r])
  {
  }

  lemma RepointIsSound(s: Store, step: Step)
    requires Sound(s) && step.Repoint? && Enabled(s, step)
    ensures Sound(Apply(s, step))
  {
    hide Tidy, DistinctVersions;
    var s' := Apply(s, step);
    PointerKeepsTidy(s.rows, step.block, s'.rows[step.block]);
    forall x | x in s'.rows ensures HasOwnVersion(s', x) {
      if x == step.block {
        assert step.version in s'.versions;
      } else {
        assert HasOwnVersion(s, x);
      }
    }
  }

  lemma OwnVersionsStay(s: Store, s': Store)
    requires s'.rows == s.rows && s.versions <= s'.versions
    ensures forall x :: x in s.rows && HasOwnVersion(s, x) ==> HasOwnVersion(s', x)
  {
    assert forall v :: v in s.versions ==> v in s'.versions;
  }

  /** Every step keeps the store sound and only ever adds versions. */
  lemma StepKeepsSound(s: Store, step: Step)
    requires Sound(s) && Enabled(s, step)
    ensures Sound(Apply(s, step))
    ensures s.versions <= Apply(s, step).versions && s.rows.Keys <= Apply(s, step).rows.Keys
  {
    hide Sound, Saved, HasOwnVersion;
    if step.Save? {
      SaveIsSound(s, step);
      forall x | x in s.rows ensures x in Apply(s, step).rows {
        RowKeepsOwner(s, step, x);
      }
    } else if step.AddVersion? {
      AddVersionIsSound(s, step);
    } else {
      RepointIsSound(s, step);
    }
  }

  lemma RowsStay(s: Store, step: Step, x: nat)
    requires Sound(s) && Enabled(s, step) && x in s.rows
    ensures var s' := Apply(s, step);
            x in s'.rows && s'.rows[x].doc == s.rows[x].doc && s'.rows[x].createdAt == s.rows[x].createdAt
  {
    hide Saved, Sound, Remembers;
    if step.Save? { RowKeepsOwner(s, step, x); }
  }

  lemma HistoryGrows(s: Store, step: Step, doc: nat)
    requires Sound(s) && Enabled(s, step)
    ensures History(s, doc) <= History(Apply(s, step), doc)
  {
    hide Saved, Enabled;
    StepKeepsSound(s, step);
    forall v | v in History(s, doc) ensures v in History(Apply(s, step), doc) {
      RowsStay(s, step, v.blockId);
    }
  }

  /** What a read offered, later stores still offer. */
  lemma StaysRemembered(s: Store, step: Step, doc: nat, blocks: seq<Block>, listing: seq<BlockVersion>)
    requires Sound(s) && Enabled(s, step) && Remembers(s, doc, blocks, listing)
    ensures Remembers(Apply(s, step), doc, blocks, listing)
  {
    hide Consistent, Apply, Enabled, Sound, History;
    NextStays(s, step);
    ConsistentStays(blocks, listing, s.next, Apply(s, step).next);
    forall b | b in blocks
      ensures var t := Apply(s, step).rows; b.id in t && t[b.id].doc == doc && t[b.id].createdAt == b.createdAt
    {
      RowsStay(s, step, b.id);
    }
    HistoryGrows(s, step, doc);
  }

  lemma BlocksStayRemembered(s: Store, step: Step, doc: nat, blocks: seq<Block>)
    requires Sound(s) && Enabled(s, step) && RemembersBlocks(s, doc, blocks)
    ensures RemembersBlocks(Apply(s, step), doc, blocks)
  {
    hide Apply, Enabled, Sound, History;
    NextStays(s, step);
    StepKeepsSound(s, step);
    forall b | b in blocks
      ensures var t := Apply(s, step).rows; b.id in t && t[b.id].doc == doc && t[b.id].createdAt == b.createdAt
    {
      RowsStay(s, step, b.id);
    }
    assert forall v :: v in s.versions ==> v in Apply(s, step).versions;
  }

  lemma NextStays(s: Store, step: Step)
    ensures s.next <= Apply(s, step).next
  {
    hide Saved;
    if step.Save? { EditOf(s, step).NextGrows(0, |step.parsed|); }
  }

  lemma ConsistentStays(blocks: seq<Block>, listing: seq<BlockVersion>, next: nat, next': nat)
    requires Consistent(blocks, listing, next) && next <= next'
    ensures Consistent(blocks, listing, next')
  {
  }

  // ----- runs

  /** The document a save works on was read before: its blocks in one store of the run so far, its history
      in the same or a later one, for the two queries are not one transaction. */
  ghost predicate ReadBefore(run: seq<Store>, i: nat, step: Step)
    requires step.Save? && i < |run|
  {
    exists j, l :: 0 <= j <= l <= i && IsLoaded(run[j].rows, step.doc, step.blocks)
                   && ListsHistory(run[l], step.doc, step.listing)
  }

  ghost predicate IsRun(run: seq<Store>, steps: seq<Step>) {
    && |run| == |steps| + 1
    && forall i :: 0 <= i < |steps| ==> NextInRun(run, steps, i)
  }

  ghost predicate NextInRun(run: seq<Store>, steps: seq<Step>, i: nat)
    requires i < |steps| < |run|
  {
    && run[i + 1] == Apply(run[i], steps[i])
    && if steps[i].Save? then ReadBefore(run, i, steps[i]) && |steps[i].parsed| <= BAND else Enabled(run[i], steps[i])
  }

  /** The first n steps of a run are enabled, in sound stores. */
  ghost predicate SoundUntil(run: seq<Store>, steps: seq<Step>, n: nat)
    requires n <= |steps| < |run|
  {
    && (forall i :: 0 <= i <= n ==> Sound(run[i]))
    && (forall i :: 0 <= i < n ==> Enabled(run[i], steps[i]))
  }

  lemma {:induction false} BlocksRememberedLater(run: seq<Store>, steps: seq<Step>, j: nat, n: nat, doc: nat,
                                                 blocks: seq<Block>)
    requires IsRun(run, steps) && j <= n <= |steps| && SoundUntil(run, steps, n)
    requires IsLoaded(run[j].rows, doc, blocks)
    ensures RemembersBlocks(run[n], doc, blocks)
    decreases n - j
  {
    hide Sound, Enabled, Apply, RemembersBlocks, IsLoaded, ReadBefore;
    if j == n {
      BlocksAreRemembered(run[n], doc, blocks);
    } else {
      BlocksRememberedLater(run, steps, j, n - 1, doc, blocks);
      assert NextInRun(run, steps, n - 1);
      BlocksStayRemembered(run[n - 1], steps[n - 1], doc, blocks);
    }
  }

  lemma {:induction false} RememberedLater(run: seq<Store>, steps: seq<Step>, j: nat, l: nat, n: nat, doc: nat,
                                           blocks: seq<Block>, listing: seq<BlockVersion>)
    requires IsRun(run, steps) && j <= l <= n <= |steps| && SoundUntil(run, steps, n)
    requires IsLoaded(run[j].rows, doc, blocks) && ListsHistory(run[l], doc, listing)
    ensures Remembers(run[n], doc, blocks, listing)
    decreases n - l
  {
    hide Sound, Enabled, Apply, Remembers, RemembersBlocks, IsLoaded, ListsHistory, ReadBefore;
    if l == n {
      BlocksRememberedLater(run, steps, j, n, doc, blocks);
      ListingCompletesRead(run[n], doc, blocks, listing);
    } else {
      RememberedLater(run, steps, j, l, n - 1, doc, blocks, listing);
      assert NextInRun(run, steps, n - 1);
      StaysRemembered(run[n - 1], steps[n - 1], doc, blocks, listing);
    }
  }

  lemma NextIsEnabled(run: seq<Store>, steps: seq<Step>, n: nat)
    requires IsRun(run, steps) && n < |steps| && SoundUntil(run, steps, n)
    ensures Enabled(run[n], steps[n]) && run[n + 1] == Apply(run[n], steps[n])
  {
    hide Sound, Enabled, Apply, SoundUntil, IsLoaded, ListsHistory, Remembers;
    var step := steps[n];
    assert NextInRun(run, steps, n);
    if step.Save? {
      var j, l :| 0 <= j <= l <= n && IsLoaded(run[j].rows, step.doc, step.blocks)
                  && ListsHistory(run[l], step.doc, step.listing);
      RememberedLater(run, steps, j, l, n, step.doc, step.blocks, step.listing);
      SaveIsEnabled(run[n], step);
    }
  }

  lemma {:induction false} RunIsSound(run: seq<Store>, steps: seq<Step>, n: nat)
    requires IsRun(run, steps) && Sound(run[0]) && n <= |steps|
    ensures SoundUntil(run, steps, n)
  {
    hide Sound, Enabled, Apply, NextInRun;
    if n > 0 {
      RunIsSound(run, steps, n - 1);
      NextIsEnabled(run, steps, n - 1);
      StepKeepsSound(run[n - 1], steps[n - 1]);
    }
  }

  /** Over any run from a sound store, saves of stale reads included, every store is sound, every step is
      enabled and no version is ever lost or altered. */
  lemma {:induction false} RunKeepsSound(run: seq<Store>, steps: seq<Step>, i: nat, n: nat)
    requires IsRun(run, steps) && Sound(run[0]) && i <= n <= |steps|
    ensures Sound(run[n]) && run[i].versions <= run[n].versions
    ensures i < n ==> Enabled(run[i], steps[i])
    decreases n
  {
    hide Sound, Enabled, Apply, NextInRun;
    RunIsSound(run, steps, n);
    if i < n {
      RunKeepsSound(run, steps, i, n - 1);
      RunSteps(run, steps, n - 1);
      StepKeepsSound(run[n - 1], steps[n - 1]);
    }
  }

  lemma RunSteps(run: seq<Store>, steps: seq<Step>, i: nat)
    requires IsRun(run, steps) && i < |steps|
    ensures run[i + 1] == Apply(run[i], steps[i])
  {
    hide Apply, ReadBefore, Enabled;
    assert NextInRun(run, steps, i);
  }

  lemma SaveIsEnabled(s: Store, step: Step)
    requires step.Save? && Remembers(s, step.doc, step.blocks, step.listing) && |step.parsed| <= BAND
    ensures Enabled(s, step)
  {
  }

  function SavesIn(steps: seq<Step>): nat {
    if steps == [] then 0 else SavesIn(steps[..|steps| - 1]) + if steps[|steps| - 1].Save? then 1 else 0
  }

  lemma StepDeepens(s: Store, step: Step, saves: nat)
    requires Sound(s) && Enabled(s, step) && NotBelow(s.rows, saves)
    ensures NotBelow(Apply(s, step).rows, if step.Save? then saves + 1 else saves)
  {
    hide Saved;
    if step.Save? {
      MergeIsSavable(s, step);
      DepthGrowsByOneBand(s.rows, step.doc, EditOf(s, step).Result().blocks, saves);
    }
  }

  /** Over any run from a sound store without parked rows, rows sink by one band a save at most; for up to
      9223372036 saves every position fits into 64 bits. */
  lemma {:induction false} RunStaysShallow(run: seq<Store>, steps: seq<Step>, n: nat)
    requires IsRun(run, steps) && Sound(run[0]) && NotBelow(run[0].rows, 0) && n <= |steps|
    ensures NotBelow(run[n].rows, SavesIn(steps[..n]))
    ensures SavesIn(steps[..n]) <= 9_223_372_036 ==>
              forall x :: x in run[n].rows ==> -0x8000_0000_0000_0000 <= run[n].rows[x].position < 0x8000_0000_0000_0000
  {
    hide Sound, Enabled, Apply, NotBelow, NextInRun;
    RunIsSound(run, steps, n);
    if n > 0 {
      RunStaysShallow(run, steps, n - 1);
      assert steps[..n][..n - 1] == steps[..n - 1];
      StepDeepens(run[n - 1], steps[n - 1], SavesIn(steps[..n - 1]));
      RunSteps(run, steps, n - 1);
    }
    ShallowFits(run[n], SavesIn(steps[..n]));
  }

  lemma StepKeepsNumbered(s: Store, step: Step)
    requires Sound(s) && Enabled(s, step) && Numbered(s.rows)
    ensures Numbered(Apply(s, step).rows)
  {
    hide Saved, Savable, DistinctVersions, HasOwnVersion;
    if step.Save? {
      MergeIsSavable(s, step);
      SaveKeepsNumbered(s.rows, step.doc, EditOf(s, step).Result().blocks);
    } else if step.Repoint? {
      PointerKeepsNumbered(s.rows, step.block, Apply(s, step).rows[step.block]);
    }
  }

  lemma PointerKeepsNumbered(t: Table, x: nat, r: Row)
    requires Numbered(t) && x in t && r.doc == t[x].doc && r.position == t[x].position
    ensures Numbered(t[x := r])
  {
    var u := t[x := r];
    forall z | z in u && u[z].position > 0 ensures Taken(u, u[z].doc, u[z].position - 1, z) {
      var y :| y in t && y != z && t[y].doc == t[z].doc && t[y].position == t[z].position - 1;
      assert y in u;
    }
  }

  /** No step of a run leaves a gap among the live rows. */
  lemma {:induction false} RunKeepsNumbered(run: seq<Store>, steps: seq<Step>, n: nat)
    requires IsRun(run, steps) && Sound(run[0]) && Numbered(run[0].rows) && n <= |steps|
    ensures Numbered(run[n].rows)
  {
    hide Sound, Enabled, Apply, Numbered, NextInRun;
    if n > 0 {
      RunKeepsNumbered(run, steps, n - 1);
      RunIsSound(run, steps, n);
      RunSteps(run, steps, n - 1);
      StepKeepsNumbered(run[n - 1], steps[n - 1]);
    }
  }

  /** A document read in any store of a run is numbered from 0, without a gap. */
  lemma RunReadsNumbered(run: seq<Store>, steps: seq<Step>, n: nat, doc: nat, blocks: seq<Block>, i: nat)
    requires IsRun(run, steps) && Sound(run[0]) && Numbered(run[0].rows) && n <= |steps|
    requires IsLoaded(run[n].rows, doc, blocks) && i < |blocks|
    ensures blocks[i].position == i
  {
    hide Sound, Numbered, NextInRun, IsLoaded;
    RunKeepsNumbered(run, steps, n);
    LoadedPositions(run[n].rows, doc, blocks, i);
  }

  lemma ShallowFits(s: Store, saves: nat)
    requires Sound(s) && NotBelow(s.rows, saves)
    ensures saves <= 9_223_372_036 ==>
              forall x :: x in s.rows ==> -0x8000_0000_0000_0000 <= s.rows[x].position < 0x8000_0000_0000_0000
  {
    hide HasOwnVersion;
    if saves <= 9_223_372_036 {
      assert saves * BAND <= 9_223_372_036 * BAND;
    }
  }

  // ----- the refinement

  /** A saved document reads back as exactly what the merge produced, saying what was parsed, and its
      history has grown by exactly the new versions: also when the save works on a stale read. */
  lemma SaveRefinesMerge(s: Store, step: Step, listing': seq<BlockVersion>)
    requires Sound(s) && step.Save? && Enabled(s, step)
    requires DistinctVersions(listing')
    requires VersionSet(listing') == History(s, step.doc) + VersionSet(EditOf(s, step).Result().versions)
    ensures var s', r := Apply(s, step), EditOf(s, step).Result();
            && Reads(s', step.doc, r.blocks, listing')
            && (forall j :: 0 <= j < |step.parsed| ==>
                  var c := CurrentContent(r.blocks[j], listing');
                  c.Some? && SameContent(step.parsed[j].kind, c.value, step.parsed[j].content))
  {
    hide Saved, CurrentContent, SameContent, Sound, Savable;
    var r := EditOf(s, step).Result();
    MergeIsSavable(s, step);
    SoundIsTidy(s);
    SaveThenLoad(s.rows, step.doc, r.blocks);
    HistoryAfterSave(s, step);
    forall j | 0 <= j < |step.parsed|
      ensures var c := CurrentContent(r.blocks[j], listing');
              c.Some? && SameContent(step.parsed[j].kind, c.value, step.parsed[j].content)
    {
      ContentInListing(s, step, listing', j);
    }
  }

  lemma ContentInListing(s: Store, step: Step, listing': seq<BlockVersion>, j: nat)
    requires step.Save? && Enabled(s, step) && j < |step.parsed|
    requires DistinctVersions(listing')
    requires VersionSet(listing') == History(s, step.doc) + VersionSet(EditOf(s, step).Result().versions)
    ensures var c := CurrentContent(EditOf(s, step).Result().blocks[j], listing');
            c.Some? && SameContent(step.parsed[j].kind, c.value, step.parsed[j].content)
  {
    hide CurrentContent, SameContent, History;
    var e := EditOf(s, step);
    var r := e.Result();
    e.ContentIsParsed(j);
    e.AllVersionsDistinct();
    var v := VersionOfBlock(s, step, j);
    if v in r.versions { assert v in VersionSet(r.versions); }
    assert v in VersionSet(listing');
    SameCurrent(r.blocks[j], v, step.listing + r.versions, listing');
  }

  lemma SameCurrent(b: Block, v: BlockVersion, one: seq<BlockVersion>, other: seq<BlockVersion>)
    requires DistinctVersions(one) && DistinctVersions(other)
    requires v in one && v in other && v.id == b.versionId
    ensures CurrentContent(b, one) == CurrentContent(b, other)
  {
    FindUnique(one, v);
    FindUnique(other, v);
  }

  /** After a save of a fresh read, the document held open is what a new read would return. */
  lemma FreshSaveReads(s: Store, step: Step)
    requires Sound(s) && step.Save? && Enabled(s, step) && Reads(s, step.doc, step.blocks, step.listing)
    ensures var r := EditOf(s, step).Result(); Reads(Apply(s, step), step.doc, r.blocks, step.listing + r.versions)
  {
    hide Saved, Reads;
    var e := EditOf(s, step);
    e.AllVersionsDistinct();
    var listing' := step.listing + e.Result().versions;
    ReadListing(s, step);
    assert VersionSet(listing') == VersionSet(step.listing) + VersionSet(e.Result().versions);
    SaveRefinesMerge(s, step, listing');
  }

  lemma ReadListing(s: Store, step: Step)
    requires step.Save? && Reads(s, step.doc, step.blocks, step.listing)
    ensures VersionSet(step.listing) == History(s, step.doc)
  {
  }

  lemma SoundIsTidy(s: Store)
    requires Sound(s)
    ensures Tidy(s.rows)
  {
  }

  /** No other document reads differently after a save. */
  lemma SaveLeavesOthers(s: Store, step: Step, d: nat, blocks: seq<Block>, listing: seq<BlockVersion>)
    requires Sound(s) && step.Save? && Enabled(s, step)
    requires d != step.doc && Reads(s, d, blocks, listing)
    ensures Reads(Apply(s, step), d, blocks, listing)
  {
    hide Saved;
    MergeIsSavable(s, step);
    SaveThenLoad(s.rows, step.doc, EditOf(s, step).Result().blocks);
    OtherHistory(s, step, d);
  }

  /** The blocks a save drops are no longer read, but their rows, pointers and versions remain. */
  lemma DroppedBlocksRemain(s: Store, step: Step, b: Block)
    requires Sound(s) && step.Save? && Enabled(s, step)
    requires b in step.blocks && b.id !in IdsOf(EditOf(s, step).Result().blocks)
    ensures var s' := Apply(s, step);
            && b.id in s'.rows && s'.rows[b.id].position < 0 && s'.rows[b.id].versionId == s.rows[b.id].versionId
            && HasOwnVersion(s', b.id) && History(s, step.doc) <= History(s', step.doc)
  {
    hide Saved;
    var r := EditOf(s, step).Result();
    MergeIsSavable(s, step);
    assert forall c :: c in r.blocks ==> c.id != b.id;
    SavedAt(s.rows, step.doc, r.blocks, b.id);
    SavedHasVersion(s, step, b.id);
    HistoryAfterSave(s, step);
  }

  lemma RowKeepsOwner(s: Store, step: Step, x: nat)
    requires Sound(s) && step.Save? && Enabled(s, step) && x in s.rows
    ensures var s' := Apply(s, step);
            x in s'.rows && s'.rows[x].doc == s.rows[x].doc && s'.rows[x].createdAt == s.rows[x].createdAt
  {
    MergeIsSavable(s, step);
    SavedAt(s.rows, step.doc, EditOf(s, step).Result().blocks, x);
  }

  lemma HistoryAfterSave(s: Store, step: Step)
    requires Sound(s) && step.Save? && Enabled(s, step)
    ensures History(Apply(s, step), step.doc) == History(s, step.doc) + VersionSet(EditOf(s, step).Result().versions)
  {
    var s', new_ := Apply(s, step), EditOf(s, step).Result().versions;
    forall v | v in s'.versions
      ensures v in History(s', step.doc) <==> v in History(s, step.doc) || v in new_
    {
      if v in new_ { NewVersionHasRow(s, step, v); } else { RowKeepsOwner(s, step, v.blockId); }
    }
  }

  lemma OtherHistory(s: Store, step: Step, d: nat)
    requires Sound(s) && step.Save? && Enabled(s, step) && d != step.doc
    ensures History(Apply(s, step), d) == History(s, d)
  {
    var s', new_ := Apply(s, step), EditOf(s, step).Result().versions;
    forall v | v in s'.versions ensures v in History(s', d) <==> v in History(s, d) {
      if v in new_ { NewVersionHasRow(s, step, v); }
      if v in s.versions { RowKeepsOwner(s, step, v.blockId); }
    }
  }

  // ----- variants and promotions

  /** A new version joins its document's history; nothing is read differently. */
  lemma AddVersionJoins(s: Store, block: nat, content: Content, now: int)
    requires Sound(s) && block in s.rows
    ensures Enabled(s, AddVersion(block, content, now))
    ensures var s', doc := Apply(s, AddVersion(block, content, now)), s.rows[block].doc;
            exists v: BlockVersion ::
              && v.blockId == block && v.content == content && v.createdAt == now
              && (forall u :: u in s.versions ==> u.id != v.id)
              && s'.rows == s.rows && s'.versions == s.versions + [v]
              && History(s', doc) == History(s, doc) + {v}
              && forall d :: d != doc ==> History(s', d) == History(s, d)
  {
    hide Tidy, DistinctVersions, HasOwnVersion;
    var s', doc := Apply(s, AddVersion(block, content, now)), s.rows[block].doc;
    var v := BlockVersion(s.next, block, content, now);
    assert s'.versions == s.versions + [v];
    assert History(s', doc) == History(s, doc) + {v};
    forall d | d != doc ensures History(s', d) == History(s, d) {
    }
  }

  /** Read blocks after the pointer of one has moved. */
  function Pointed(blocks: seq<Block>, block: nat, version: nat, now: int): (r: seq<Block>)
    ensures |r| == |blocks|
    ensures forall i :: 0 <= i < |blocks| ==>
              r[i] == if blocks[i].id == block then blocks[i].(versionId := version, updatedAt := now) else blocks[i]
  {
    seq(|blocks|, i requires 0 <= i < |blocks| =>
      if blocks[i].id == block then blocks[i].(versionId := version, updatedAt := now) else blocks[i])
  }

  /** The row of a block after the repoint. */
  function PointedRow(t: Table, block: nat, version: nat, now: int): Table
    requires block in t
  {
    t[block := t[block].(versionId := version, updatedAt := now)]
  }

  lemma PointedAt(t: Table, block: nat, version: nat, now: int, doc: nat, blocks: seq<Block>, i: nat)
    requires block in t && i < |blocks| && Live(t, doc, blocks[i].id)
    requires blocks[i] == BlockOf(blocks[i].id, t[blocks[i].id])
    ensures var t', b := PointedRow(t, block, version, now), Pointed(blocks, block, version, now)[i];
            && b.id == blocks[i].id && b.position == blocks[i].position
            && Live(t', doc, b.id) && b == BlockOf(b.id, t'[b.id])
  {
  }

  lemma PointedLoads(t: Table, block: nat, version: nat, now: int, doc: nat, blocks: seq<Block>)
    requires block in t && IsLoaded(t, doc, blocks)
    ensures IsLoaded(PointedRow(t, block, version, now), doc, Pointed(blocks, block, version, now))
  {
    hide Pointed, PointedRow, BlockOf;
    var t', blocks' := PointedRow(t, block, version, now), Pointed(blocks, block, version, now);
    forall i | 0 <= i < |blocks|
      ensures blocks'[i].id == blocks[i].id && blocks'[i].position == blocks[i].position
      ensures Live(t', doc, blocks'[i].id) && blocks'[i] == BlockOf(blocks'[i].id, t'[blocks'[i].id])
    {
      assert blocks[i] in blocks;
      PointedAt(t, block, version, now, doc, blocks, i);
    }
    forall x | Live(t', doc, x) ensures BlockOf(x, t'[x]) in blocks' {
      StillLive(t, block, version, now, doc, x);
      var i :| 0 <= i < |blocks| && blocks[i] == BlockOf(x, t[x]);
      BlockOfId(x, t[x]);
      assert blocks'[i] == BlockOf(x, t'[x]);
    }
  }

  lemma BlockOfId(x: nat, r: Row)
    ensures BlockOf(x, r).id == x
  {
  }

  lemma StillLive(t: Table, block: nat, version: nat, now: int, doc: nat, x: nat)
    requires block in t && Live(PointedRow(t, block, version, now), doc, x)
    ensures Live(t, doc, x)
  {
  }

  /** After a repoint every document reads the same but for that block, which shows the version it was pointed
      at. */
  lemma RepointReads(s: Store, block: nat, version: BlockVersion, now: int, doc: nat, blocks: seq<Block>,
                     listing: seq<BlockVersion>)
    requires Sound(s) && version in s.versions && version.blockId == block && Reads(s, doc, blocks, listing)
    ensures Enabled(s, Repoint(block, version, now))
    ensures var blocks' := Pointed(blocks, block, version.id, now);
            && Reads(Apply(s, Repoint(block, version, now)), doc, blocks', listing)
            && forall i :: 0 <= i < |blocks| && blocks[i].id == block ==>
                 CurrentContent(blocks'[i], listing) == Some(version.content)
  {
    hide IsLoaded, Tidy, DistinctVersions, HasOwnVersion, CurrentContent;
    var s', blocks' := Apply(s, Repoint(block, version, now)), Pointed(blocks, block, version.id, now);
    PointedLoads(s.rows, block, version.id, now, doc, blocks);
    assert History(s', doc) == History(s, doc);
    forall i | 0 <= i < |blocks| && blocks[i].id == block
      ensures CurrentContent(blocks'[i], listing) == Some(version.content)
    {
      LoadedBlock(s.rows, doc, blocks, i);
      assert version in History(s, doc);
      assert version in VersionSet(listing);
      ShowsVersion(blocks'[i], version, listing);
    }
  }

  lemma LoadedBlock(t: Table, doc: nat, blocks: seq<Block>, i: nat)
    requires IsLoaded(t, doc, blocks) && i < |blocks|
    ensures blocks[i].id in t && t[blocks[i].id].doc == doc
  {
    assert blocks[i] in blocks;
  }

  lemma ShowsVersion(b: Block, v: BlockVersion, listing: seq<BlockVersion>)
    requires DistinctVersions(listing) && v in listing && v.id == b.versionId
    ensures CurrentContent(b, listing) == Some(v.content)
  {
    FindUnique(listing, v);
  }

  // ----- saves of stale reads

  /** A save points a kept block back to the version it had read, whatever the row points at by then, or
      to a new version if its content was edited. */
  lemma PointerAfterSave(s: Store, step: Step, i: nat, j: nat)
    requires Sound(s) && step.Save? && Enabled(s, step) && i < |step.blocks| && j < |step.parsed|
    requires EditOf(s, step).Result().blocks[j].id == step.blocks[i].id
    ensures var b, c := step.blocks[i], CurrentContent(step.blocks[i], step.listing);
            && c.Some? && b.id in Apply(s, step).rows
            && var p := Apply(s, step).rows[b.id].versionId;
               if SameContent(step.parsed[j].kind, c.value, step.parsed[j].content) then p == b.versionId
                   else p >= s.next
  {
    hide Saved, CurrentContent, SameContent;
    var e := EditOf(s, step);
    var r := e.Result();
    e.KeptBlock(j, i);
    MergeIsSavable(s, step);
    assert r.blocks[j] in r.blocks;
    SavedAt(s.rows, step.doc, r.blocks, r.blocks[j].id);
  }

  /** A repoint made after the document was read survives the save exactly when the save drops the block. */
  lemma RepointSurvivesIff(s: Store, step: Step, b: Block)
    requires Sound(s) && step.Save? && Enabled(s, step)
    requires b in step.blocks && b.id in s.rows && s.rows[b.id].versionId != b.versionId
    ensures var t, t' := s.rows, Apply(s, step).rows;
            b.id in t' && (t'[b.id].versionId == t[b.id].versionId <==> b.id !in IdsOf(EditOf(s, step).Result().blocks))
  {
    hide Saved;
    var r := EditOf(s, step).Result();
    if b.id in IdsOf(r.blocks) {
      var i :| 0 <= i < |step.blocks| && step.blocks[i] == b;
      var j :| 0 <= j < |r.blocks| && r.blocks[j].id == b.id;
      PointerAfterSave(s, step, i, j);
      assert HasOwnVersion(s, b.id);
    } else {
      DroppedBlocksRemain(s, step, b);
    }
  }

  // ----- saves whose first statement depends on the order of the rows

  /** Two blocks dropped from the same place by two successive saves end up exactly one band apart: a later
      save whose first statement visits the second one's row before the first one's fails. */
  lemma SamePlaceCollides(s: Store, first: Step, second: Step, x: nat, y: nat, ids: seq<nat>, i: nat, j: nat)
    requires Sound(s) && first.Save? && second.Save? && first.doc == second.doc
    requires Enabled(s, first) && Enabled(Apply(s, first), second)
    requires Live(s.rows, first.doc, x) && Live(Apply(s, first).rows, first.doc, y)
    requires s.rows[x].position == Apply(s, first).rows[y].position
    requires x !in IdsOf(EditOf(s, first).Result().blocks)
    requires var r := EditOf(Apply(s, first), second).Result().blocks; x !in IdsOf(r) && y !in IdsOf(r)
    requires var t := Apply(Apply(s, first), second).rows;
             Lists(t, first.doc, ids, true) && i < j < |ids| && ids[i] == y && ids[j] == x
    ensures !Movable(Apply(Apply(s, first), second).rows, ids)
  {
    hide Saved, Sound, Enabled, Savable;
    var s1 := Apply(s, first);
    StepKeepsSound(s, first);
    StepKeepsSound(s1, second);
    DropParks(s, first, x);
    DropParks(s1, second, x);
    DropParks(s1, second, y);
    SoundIsTidy(Apply(s1, second));
    ParkedMovableIff(Apply(s1, second).rows, first.doc, ids);
  }

  /** A save moves the row of a block it does not keep one band, a thousand million positions, down. */
  lemma DropParks(s: Store, step: Step, x: nat)
    requires Sound(s) && step.Save? && Enabled(s, step)
    requires x in s.rows && s.rows[x].doc == step.doc && x !in IdsOf(EditOf(s, step).Result().blocks)
    ensures x in Apply(s, step).rows
    ensures Apply(s, step).rows[x] == s.rows[x].(position := s.rows[x].position - 1_000_000_000)
  {
    hide Saved;
    var r := EditOf(s, step).Result();
    MergeIsSavable(s, step);
    assert forall c :: c in r.blocks ==> c.id != x;
    SavedAt(s.rows, step.doc, r.blocks, x);
  }

  const EMPTY := Store(map[], [], 0)

  /** Saving over one block by at most one of another kind keeps no id. */
  lemma ReplaceOnly(s: Store, step: Step)
    requires step.Save? && |step.parsed| <= 1
    requires forall b, p :: b in step.blocks && p in step.parsed ==> b.kind != p.kind
    ensures step.parsed == [] ==> EditOf(s, step).Result() == Merged([], [], s.next)
    ensures |step.parsed| == 1 ==>
              var p := step.parsed[0];
              EditOf(s, step).Result()
                == Merged([Block(s.next, p.kind, s.next + 1, 0, step.now, step.now)],
                          [BlockVersion(s.next + 1, s.next, p.content, step.now)], s.next + 2)
  {
    var e := EditOf(s, step);
    if |step.parsed| == 1 {
      assert e.Partner(0).None?;
      assert e.NextAt(0) == s.next && e.NextAt(1) == s.next + 2;
      assert e.VersionsUpTo(0) == [] && e.VersionsUpTo(1) == [e.VersionAt(0)];
    }
  }

  // A run of three saves of one document: a paragraph, a heading in its place, nothing.

  const TEXT := Text("t")
  const PARAGRAPH_ROW := Row(0, Paragraph, 0, 1, 0, 0)
  const HEADING_ROW := Row(0, Heading(1), 0, 3, 0, 0)
  const FIRST_VERSION := BlockVersion(1, 0, TEXT, 0)
  const SECOND_VERSION := BlockVersion(3, 2, TEXT, 0)

  const WRITE := Save(0, [], [], [ParsedBlock(Paragraph, TEXT)], 0)
  const REPLACE := Save(0, [Block(0, Paragraph, 1, 0, 0, 0)], [FIRST_VERSION], [ParsedBlock(Heading(1), TEXT)], 0)
  const CLEAR := Save(0, [Block(2, Heading(1), 3, 0, 0, 0)], [FIRST_VERSION, SECOND_VERSION], [], 0)

  const WRITTEN := Store(map[0 := PARAGRAPH_ROW], [FIRST_VERSION], 2)
  const REPLACED := Store(map[0 := PARAGRAPH_ROW.(position := -BAND), 2 := HEADING_ROW],
                          [FIRST_VERSION, SECOND_VERSION], 4)
  const CLEARED := Store(map[0 := PARAGRAPH_ROW.(position := -2 * BAND), 2 := HEADING_ROW.(position := -BAND)],
                         [FIRST_VERSION, SECOND_VERSION], 4)

  lemma SavedNone(t: Table, doc: nat)
    ensures Saved(t, doc, []) == Parked(t, doc)
  {
  }

  lemma SavedOne(t: Table, doc: nat, b: Block)
    ensures Saved(t, doc, [b]) == Upserted(Parked(t, doc), doc, b)
  {
    assert [b][..0] == [];
    assert UpsertedAll(Parked(t, doc), doc, []) == Parked(t, doc);
  }

  lemma WriteGives()
    ensures Apply(EMPTY, WRITE) == WRITTEN
  {
    hide Saved, UpsertedAll;
    ReplaceOnly(EMPTY, WRITE);
    SavedOne(map[], 0, Block(0, Paragraph, 1, 0, 0, 0));
  }

  lemma ReplaceGives()
    ensures Apply(WRITTEN, REPLACE) == REPLACED
  {
    hide Saved, UpsertedAll;
    ReplaceOnly(WRITTEN, REPLACE);
    SavedOne(WRITTEN.rows, 0, Block(2, Heading(1), 3, 0, 0, 0));
  }

  lemma ClearGives()
    ensures Apply(REPLACED, CLEAR) == CLEARED
  {
    hide Saved, UpsertedAll;
    ReplaceOnly(REPLACED, CLEAR);
    SavedNone(REPLACED.rows, 0);
  }

  lemma ReadsOfRun()
    ensures Reads(EMPTY, 0, WRITE.blocks, WRITE.listing)
    ensures Reads(WRITTEN, 0, REPLACE.blocks, REPLACE.listing)
    ensures Reads(REPLACED, 0, CLEAR.blocks, CLEAR.listing)
  {
  }

  /** Three saves from an empty store lead to a table in which visiting the shallower of the parked rows
      first violates the constraint. */
  lemma ShallowFirstFails() returns (run: seq<Store>, steps: seq<Step>)
    ensures IsRun(run, steps) && run[0] == EMPTY && Sound(EMPTY)
    ensures |steps| == 3 && forall step :: step in steps ==> step.Save? && step.doc == 0
    ensures var t := run[3].rows;
            Lists(t, 0, [2, 0], true) && !Movable(t, [2, 0]) && Lists(t, 0, [0, 2], true) && Movable(t, [0, 2])
  {
    hide Apply;
    run, steps := [EMPTY, WRITTEN, REPLACED, CLEARED], [WRITE, REPLACE, CLEAR];
    WriteGives();
    ReplaceGives();
    ClearGives();
    ReadsOfRun();
    RowsOfRun();
  }

  lemma RowsListed()
    ensures Tidy(CLEARED.rows) && Lists(CLEARED.rows, 0, [2, 0], true) && Lists(CLEARED.rows, 0, [0, 2], true)
  {
  }

  lemma RowsOfRun()
    ensures var t := CLEARED.rows;
            Lists(t, 0, [2, 0], true) && !Movable(t, [2, 0]) && Lists(t, 0, [0, 2], true) && Movable(t, [0, 2])
  {
    hide Tidy, Lists, Movable;
    var t := CLEARED.rows;
    RowsListed();
    assert Below(t, [2, 0][1], [2, 0][0]);
    ParkedMovableIff(t, 0, [2, 0]);
    ParkedMovableIff(t, 0, [0, 2]);
  }
}
