/** The blocks table under UNIQUE (document_id, position), and how a save renumbers it. */
module BlockStore {
  import opened Blocks

  /** Dropped rows are parked in negative bands of this width. */
  const BAND: int := 1_000_000_000

  datatype Row = Row(doc: nat, kind: BlockKind, position: int, versionId: nat, createdAt: int, updatedAt: int)

  type Table = map<nat, Row>

  /** The row of a block other than id occupies this position. */
  predicate Taken(t: Table, doc: nat, position: int, id: nat) {
    exists x :: x in t && x != id && t[x].doc == doc && t[x].position == position
  }

  ghost predicate Unique(t: Table) {
    forall x, y :: x in t && y in t && x != y && t[x].doc == t[y].doc ==> t[x].position != t[y].position
  }

  /** Between saves: positions are unique and the live ones lie within one band. */
  ghost predicate Tidy(t: Table) {
    && Unique(t)
    && forall x :: x in t ==> t[x].position < BAND
  }

  predicate InTable(t: Table, ids: seq<nat>) {
    forall i :: 0 <= i < |ids| ==> ids[i] in t
  }

  ghost predicate Distinct(ids: seq<nat>) {
    forall i, j :: 0 <= i < j < |ids| ==> ids[i] != ids[j]
  }

  /** The listed rows, each one band deeper. */
  function Moved(t: Table, ids: seq<nat>): Table {
    map x | x in t :: if x in ids then t[x].(position := t[x].position - BAND) else t[x]
  }

  /** Row x of the same document sits exactly one band below row y. */
  predicate Below(t: Table, x: nat, y: nat)
    requires x in t && y in t
  {
    t[x].doc == t[y].doc && t[x].position == t[y].position - BAND
  }

  /** Row by row, each destination is free when its turn comes: whoever holds it has already left. */
  ghost predicate Movable(t: Table, ids: seq<nat>)
    requires InTable(t, ids)
  {
    forall i, x :: 0 <= i < |ids| && x in t && Below(t, x, ids[i]) ==> x in ids[..i]
  }

  ghost predicate Lists(t: Table, doc: nat, ids: seq<nat>, parked: bool) {
    && Distinct(ids)
    && InTable(t, ids)
    && forall x :: x in t ==> (x in ids <==> t[x].doc == doc && (t[x].position < 0) == parked)
  }

  ghost predicate Ascending(t: Table, ids: seq<nat>)
    requires InTable(t, ids)
  {
    forall i, j :: 0 <= i < j < |ids| ==> t[ids[i]].position < t[ids[j]].position
  }

  /** Every row of the document, live or parked, one band deeper. */
  function Parked(t: Table, doc: nat): Table {
    map x | x in t :: if t[x].doc == doc then t[x].(position := t[x].position - BAND) else t[x]
  }

  function Upserted(t: Table, doc: nat, b: Block): Table {
    if b.id in t
    then t[b.id := t[b.id].(kind := b.kind, position := b.position, versionId := b.versionId, updatedAt := b.updatedAt)]
    else t[b.id := Row(doc, b.kind, b.position, b.versionId, b.createdAt, b.updatedAt)]
  }

  function UpsertedAll(t: Table, doc: nat, blocks: seq<Block>): Table {
    if blocks == [] then t
    else Upserted(UpsertedAll(t, doc, blocks[..|blocks| - 1]), doc, blocks[|blocks| - 1])
  }

  function Saved(t: Table, doc: nat, blocks: seq<Block>): Table {
    UpsertedAll(Parked(t, doc), doc, blocks)
  }

  /** What a merge hands to a save: numbered from 0, and known blocks are this document's own. */
  ghost predicate Savable(t: Table, doc: nat, blocks: seq<Block>) {
    && |blocks| <= BAND
    && DistinctBlocks(blocks)
    && (forall i :: 0 <= i < |blocks| ==> blocks[i].position == i)
    && (forall b :: b in blocks && b.id in t ==> t[b.id].doc == doc && t[b.id].createdAt == b.createdAt)
  }

  class BlockTable {
    var rows: Table
    var versions: seq<BlockVersion>

    /** One UPDATE that moves the listed rows down a band; the constraint is checked row by row, and a violation
        undoes the statement. */
    method MoveDown(ids: seq<nat>) returns (ok: bool)
      requires Unique(rows) && Distinct(ids) && InTable(rows, ids)
      modifies this`rows
      ensures ok <==> Movable(old(rows), ids)
      ensures ok ==> rows == Moved(old(rows), ids) && Unique(rows)
      ensures !ok ==> rows == old(rows)
    {
      hide Moved, Movable, Unique, Taken, Distinct;
      var t := rows;
      NothingMoved(t, ids);
      for i := 0 to |ids|
        invariant rows == Moved(t, ids[..i]) && Unique(rows)
        invariant Movable(t, ids[..i])
      {
        var id := ids[i];
        MoveRound(t, ids, i);
        if Taken(rows, rows[id].doc, rows[id].position - BAND, id) {
          rows := t;
          return false;
        }
        rows := rows[id := rows[id].(position := rows[id].position - BAND)];
      }
      assert ids[..|ids|] == ids;
      ok := true;
    }

    method Upsert(doc: nat, b: Block) returns (ok: bool)
      modifies this`rows
      ensures ok <==> !Taken(old(rows), if b.id in old(rows) then old(rows)[b.id].doc else doc, b.position, b.id)
      ensures rows == if ok then Upserted(old(rows), doc, b) else old(rows)
    {
      var owner := if b.id in rows then rows[b.id].doc else doc;
      ok := !Taken(rows, owner, b.position, b.id);
      if !ok {
        return;
      }
      if b.id in rows {
        var r := rows[b.id];
        rows := rows[b.id := Row(r.doc, b.kind, b.position, b.versionId, r.createdAt, b.updatedAt)];
      } else {
        rows := rows[b.id := Row(doc, b.kind, b.position, b.versionId, b.createdAt, b.updatedAt)];
      }
    }

    /** The save transaction.  The two statements visit rows in the given orders; only that of the
        parked rows matters. */
    method SaveDocumentBlocks(doc: nat, blocks: seq<Block>, minted: seq<BlockVersion>,
                              parkedOrder: seq<nat>, liveOrder: seq<nat>) returns (ok: bool)
      requires Tidy(rows) && Savable(rows, doc, blocks) && DistinctVersions(versions + minted)
      requires Lists(rows, doc, parkedOrder, true) && Lists(rows, doc, liveOrder, false)
      modifies this
      ensures ok <==> Movable(old(rows), parkedOrder)
      ensures ok ==> rows == Saved(old(rows), doc, blocks) && Tidy(rows) && versions == old(versions) + minted
      ensures !ok ==> rows == old(rows) && versions == old(versions)
    {
      var before := rows;
      ok := MoveDown(parkedOrder);
      if !ok {
        return;
      }
      LiveRowsMovable(before, doc, parkedOrder, liveOrder);
      ok := MoveDown(liveOrder);
      assert rows == Parked(before, doc);
      for k := 0 to |blocks|
        invariant rows == UpsertedAll(Parked(before, doc), doc, blocks[..k]) && versions == old(versions)
      {
        PositionFree(before, doc, blocks, k);
        assert blocks[..k + 1][..k] == blocks[..k];
        ok := Upsert(doc, blocks[k]);
        assert ok;
      }
      assert blocks[..|blocks|] == blocks;
      SavedTidy(before, doc, blocks);
      for k := 0 to |minted|
        invariant versions == old(versions) + minted[..k] && rows == Saved(before, doc, blocks)
      {
        versions := versions + [minted[k]];
      }
      assert minted[..|minted|] == minted;
      ok := true;
    }
  }

  // ----- the two statements

  lemma DestinationFree(t: Table, ids: seq<nat>, i: nat)
    requires Unique(t) && Distinct(ids) && InTable(t, ids) && i < |ids|
    ensures var m := Moved(t, ids[..i]);
            && m[ids[i]] == t[ids[i]]
            && (Taken(m, t[ids[i]].doc, t[ids[i]].position - BAND, ids[i]) <==>
                exists x :: x in t && Below(t, x, ids[i]) && x !in ids[..i])
  {
    var m, id := Moved(t, ids[..i]), ids[i];
    assert id !in ids[..i];
    if x :| x in t && Below(t, x, id) && x !in ids[..i] {
      assert m[x] == t[x];
    }
  }

  lemma MovedNext(t: Table, ids: seq<nat>, i: nat)
    requires Distinct(ids) && InTable(t, ids) && i < |ids|
    ensures var m := Moved(t, ids[..i]);
            Moved(t, ids[..i + 1]) == m[ids[i] := m[ids[i]].(position := m[ids[i]].position - BAND)]
  {
    assert ids[..i + 1] == ids[..i] + [ids[i]];
    assert ids[i] !in ids[..i];
  }

  lemma NothingMoved(t: Table, ids: seq<nat>)
    ensures Moved(t, ids[..0]) == t && Movable(t, ids[..0])
  {
  }

  lemma MovableNext(t: Table, ids: seq<nat>, i: nat)
    requires InTable(t, ids) && i < |ids| && Movable(t, ids[..i])
    requires forall x :: x in t && Below(t, x, ids[i]) ==> x in ids[..i]
    ensures Movable(t, ids[..i + 1])
  {
    var s := ids[..i + 1];
    forall j, x | 0 <= j < |s| && x in t && Below(t, x, s[j]) ensures x in s[..j] {
      if j < i {
        assert s[j] == ids[..i][j] && s[..j] == ids[..i][..j];
      } else {
        assert s[..i] == ids[..i];
      }
    }
  }

  lemma StillUnique(t: Table, x: nat, position: int)
    requires Unique(t) && x in t && !Taken(t, t[x].doc, position, x)
    ensures Unique(t[x := t[x].(position := position)])
  {
  }

  lemma NotMovable(t: Table, ids: seq<nat>, i: nat)
    requires InTable(t, ids) && i < |ids| && exists x :: x in t && Below(t, x, ids[i]) && x !in ids[..i]
    ensures !Movable(t, ids)
  {
  }

  /** One round of the statement: it stops at a row that is in the way, or moves one more row. */
  lemma MoveRound(t: Table, ids: seq<nat>, i: nat)
    requires Unique(t) && Distinct(ids) && InTable(t, ids) && i < |ids|
    requires Unique(Moved(t, ids[..i])) && Movable(t, ids[..i])
    ensures var m, id := Moved(t, ids[..i]), ids[i];
            && id in m
            && if Taken(m, m[id].doc, m[id].position - BAND, id) then !Movable(t, ids)
               else var m' := m[id := m[id].(position := m[id].position - BAND)];
                    m' == Moved(t, ids[..i + 1]) && Unique(m') && Movable(t, ids[..i + 1])
  {
    hide Movable, Unique, Taken, Distinct;
    var m, id := Moved(t, ids[..i]), ids[i];
    DestinationFree(t, ids, i);
    if Taken(m, m[id].doc, m[id].position - BAND, id) {
      NotMovable(t, ids, i);
    } else {
      MovableNext(t, ids, i);
      MovedNext(t, ids, i);
      StillUnique(m, id, m[id].position - BAND);
    }
  }

  /** The statement over the parked rows succeeds exactly when no row moves before the row that is
      exactly one band below it. */
  lemma ParkedMovableIff(t: Table, doc: nat, ids: seq<nat>)
    requires Tidy(t) && Lists(t, doc, ids, true)
    ensures Movable(t, ids) <==> forall i, j :: 0 <= i < j < |ids| ==> !Below(t, ids[j], ids[i])
  {
    if Movable(t, ids) {
      forall i, j | 0 <= i < j < |ids| ensures !Below(t, ids[j], ids[i]) {
        assert ids[j] !in ids[..i];
      }
    }
    if forall i, j :: 0 <= i < j < |ids| ==> !Below(t, ids[j], ids[i]) {
      forall i, x | 0 <= i < |ids| && x in t && Below(t, x, ids[i]) ensures x in ids[..i] {
        assert x in ids;
        var j :| 0 <= j < |ids| && ids[j] == x;
        assert j < i && ids[..i][j] == x;
      }
    }
  }

  /** In increasing position it always succeeds. */
  lemma AscendingMovable(t: Table, doc: nat, ids: seq<nat>)
    requires Tidy(t) && Lists(t, doc, ids, true) && Ascending(t, ids)
    ensures Movable(t, ids)
  {
    ParkedMovableIff(t, doc, ids);
  }

  /** After the first statement the topmost negative band is empty, so live rows may be visited in any
      order. */
  lemma LiveRowsMovable(t: Table, doc: nat, parkedOrder: seq<nat>, liveOrder: seq<nat>)
    requires Tidy(t) && Lists(t, doc, parkedOrder, true) && Lists(t, doc, liveOrder, false)
    ensures var m := Moved(t, parkedOrder);
            && (forall x :: x in m && m[x].doc == doc ==> !(-BAND <= m[x].position < 0))
            && InTable(m, liveOrder) && Movable(m, liveOrder)
            && Moved(m, liveOrder) == Parked(t, doc)
  {
  }

  /** An upsert is refused exactly when it would put two rows in one place. */
  lemma RefusedIffClash(t: Table, doc: nat, b: Block)
    requires Unique(t)
    ensures var owner := if b.id in t then t[b.id].doc else doc;
            Taken(t, owner, b.position, b.id) <==> !Unique(Upserted(t, doc, b))
  {
    var u, owner := Upserted(t, doc, b), if b.id in t then t[b.id].doc else doc;
    assert u[b.id].doc == owner && u[b.id].position == b.position;
    if x :| x in t && x != b.id && t[x].doc == owner && t[x].position == b.position {
      assert u[x] == t[x];
    }
  }

  // ----- the updates and inserts

  function RowOf(doc: nat, b: Block): Row {
    Row(doc, b.kind, b.position, b.versionId, b.createdAt, b.updatedAt)
  }

  lemma {:induction false} UpsertedAt(t: Table, doc: nat, blocks: seq<Block>, x: nat)
    requires DistinctBlocks(blocks)
    requires forall b :: b in blocks && b.id in t ==> t[b.id].doc == doc && t[b.id].createdAt == b.createdAt
    ensures var u := UpsertedAll(t, doc, blocks);
            && (x in u <==> x in t || exists b :: b in blocks && b.id == x)
            && (forall b :: b in blocks && b.id == x ==> u[x] == RowOf(doc, b))
            && (x in t && (forall b :: b in blocks ==> b.id != x) ==> u[x] == t[x])
  {
    if blocks != [] {
      var front, last := blocks[..|blocks| - 1], blocks[|blocks| - 1];
      assert blocks == front + [last];
      UpsertedAt(t, doc, front, x);
      UpsertedAt(t, doc, front, last.id);
      assert forall b :: b in front ==> b.id != last.id;
    }
  }

  lemma PositionFree(t: Table, doc: nat, blocks: seq<Block>, k: nat)
    requires Tidy(t) && Savable(t, doc, blocks) && k < |blocks|
    ensures var u, b := UpsertedAll(Parked(t, doc), doc, blocks[..k]), blocks[k];
            && (b.id in u ==> u[b.id].doc == doc)
            && !Taken(u, doc, b.position, b.id)
  {
    var p := Parked(t, doc);
    var u := UpsertedAll(p, doc, blocks[..k]);
    UpsertedAt(p, doc, blocks[..k], blocks[k].id);
    forall x | x in u && u[x].doc == doc ensures u[x].position != k {
      UpsertedAt(p, doc, blocks[..k], x);
    }
  }

  lemma SavedAt(t: Table, doc: nat, blocks: seq<Block>, x: nat)
    requires Tidy(t) && Savable(t, doc, blocks)
    ensures var u := Saved(t, doc, blocks);
            && (x in u <==> x in t || exists b :: b in blocks && b.id == x)
            && (forall b :: b in blocks && b.id == x ==> u[x] == RowOf(doc, b))
            && (x in t && (forall b :: b in blocks ==> b.id != x) ==>
                  u[x] == if t[x].doc == doc then t[x].(position := t[x].position - BAND) else t[x])
  {
    UpsertedAt(Parked(t, doc), doc, blocks, x);
  }

  lemma SavedTidy(t: Table, doc: nat, blocks: seq<Block>)
    requires Tidy(t) && Savable(t, doc, blocks)
    ensures Tidy(Saved(t, doc, blocks))
  {
    var u := Saved(t, doc, blocks);
    forall x, y | x in u && y in u && x != y && u[x].doc == u[y].doc ensures u[x].position != u[y].position {
      SavedAt(t, doc, blocks, x);
      SavedAt(t, doc, blocks, y);
    }
    forall x | x in u ensures u[x].position < BAND {
      SavedAt(t, doc, blocks, x);
    }
  }

  // ----- reading a document back

  function BlockOf(id: nat, r: Row): Block {
    Block(id, r.kind, r.versionId, r.position, r.createdAt, r.updatedAt)
  }

  predicate Live(t: Table, doc: nat, x: nat) {
    x in t && t[x].doc == doc && t[x].position >= 0
  }

  /** The answer to SELECT .. WHERE document_id = doc AND position >= 0 ORDER BY position. */
  ghost predicate IsLoaded(t: Table, doc: nat, s: seq<Block>) {
    && (forall i, j :: 0 <= i < j < |s| ==> s[i].position < s[j].position)
    && (forall b :: b in s ==> Live(t, doc, b.id) && b == BlockOf(b.id, t[b.id]))
    && (forall x :: Live(t, doc, x) ==> BlockOf(x, t[x]) in s)
  }

  /** That answer is unique. */
  lemma {:induction false} LoadedIsUnique(t: Table, doc: nat, s: seq<Block>, r: seq<Block>)
    requires IsLoaded(t, doc, s) && IsLoaded(t, doc, r)
    ensures s == r
  {
    SortedWithSameElements(s, r);
  }

  lemma FirstIn(s: seq<Block>)
    requires s != []
    ensures s[0] in s
  {
  }

  lemma {:induction false} SortedWithSameElements(s: seq<Block>, r: seq<Block>)
    requires forall i, j :: 0 <= i < j < |s| ==> s[i].position < s[j].position
    requires forall i, j :: 0 <= i < j < |r| ==> r[i].position < r[j].position
    requires forall b :: b in s <==> b in r
    ensures s == r
  {
    if s == [] && r == [] {
    } else if s == [] {
      FirstIn(r);
      assert false;
    } else {
      assert s[0] in r && r != [] && r[0] in s;
      assert s[0] == r[0];
      assert s == [s[0]] + s[1..] && r == [r[0]] + r[1..];
      forall b ensures b in s[1..] <==> b in r[1..] {
        if b in s[1..] { assert b in s && b.position > s[0].position; }
        if b in r[1..] { assert b in r && b.position > r[0].position; }
      }
      SortedWithSameElements(s[1..], r[1..]);
    }
  }

  /** A save followed by a read returns exactly what was saved; the other documents read the same. */
  lemma SaveThenLoad(t: Table, doc: nat, blocks: seq<Block>)
    requires Tidy(t) && Savable(t, doc, blocks)
    ensures IsLoaded(Saved(t, doc, blocks), doc, blocks)
    ensures forall d, s :: d != doc && IsLoaded(t, d, s) ==> IsLoaded(Saved(t, doc, blocks), d, s)
  {
    var u := Saved(t, doc, blocks);
    forall x | x in u
      ensures Live(u, doc, x) ==> BlockOf(x, u[x]) in blocks
      ensures u[x].doc != doc ==> x in t && u[x] == t[x]
    {
      SavedAt(t, doc, blocks, x);
    }
    forall b | b in blocks ensures Live(u, doc, b.id) && b == BlockOf(b.id, u[b.id]) {
      SavedAt(t, doc, blocks, b.id);
    }
    forall x | x in t ensures x in u && (t[x].doc != doc ==> u[x] == t[x]) {
      SavedAt(t, doc, blocks, x);
    }
  }

  /** Live rows leave no gap: below every positive position of a document there is a row of the document. */
  ghost predicate Numbered(t: Table) {
    forall x :: x in t && t[x].position > 0 ==> Taken(t, t[x].doc, t[x].position - 1, x)
  }

  lemma SavedBlock(t: Table, doc: nat, blocks: seq<Block>, i: nat)
    requires Tidy(t) && Savable(t, doc, blocks) && i < |blocks|
    ensures var u, x := Saved(t, doc, blocks), blocks[i].id; x in u && u[x].doc == doc && u[x].position == i
  {
    hide Saved;
    assert blocks[i] in blocks;
    SavedAt(t, doc, blocks, blocks[i].id);
  }

  lemma SaveKeepsNumbered(t: Table, doc: nat, blocks: seq<Block>)
    requires Tidy(t) && Savable(t, doc, blocks) && Numbered(t)
    ensures Numbered(Saved(t, doc, blocks))
  {
    hide Saved;
    var u := Saved(t, doc, blocks);
    forall x | x in u && u[x].position > 0 ensures Taken(u, u[x].doc, u[x].position - 1, x) {
      SavedAt(t, doc, blocks, x);
      if i :| 0 <= i < |blocks| && blocks[i].id == x {
        SavedBlock(t, doc, blocks, i);
        SavedBlock(t, doc, blocks, u[x].position - 1);
      } else {
        assert forall b :: b in blocks ==> b.id != x;
        var y :| y in t && y != x && t[y].doc == t[x].doc && t[y].position == t[x].position - 1;
        SavedAt(t, doc, blocks, y);
      }
    }
  }

  lemma ReadPredecessor(t: Table, doc: nat, s: seq<Block>, i: nat) returns (k: nat)
    requires Numbered(t) && IsLoaded(t, doc, s) && i < |s| && s[i].position > 0
    ensures k < |s| && s[k].position == s[i].position - 1
  {
    assert s[i] in s;
    var y :| y in t && t[y].doc == doc && t[y].position == s[i].position - 1;
    assert Live(t, doc, y);
    k :| 0 <= k < |s| && s[k] == BlockOf(y, t[y]);
  }

  /** Then a document is read with positions 0, 1, and so on. */
  lemma {:induction false} LoadedPositions(t: Table, doc: nat, s: seq<Block>, i: nat)
    requires Numbered(t) && IsLoaded(t, doc, s) && i < |s|
    ensures s[i].position == i
  {
    hide Numbered;
    assert s[i] in s;
    if i > 0 { LoadedPositions(t, doc, s, i - 1); }
    if s[i].position > i {
      var k := ReadPredecessor(t, doc, s, i);
      assert false;
    }
  }

  /** How far down rows have been pushed. */
  ghost predicate NotBelow(t: Table, saves: nat) {
    forall x :: x in t ==> t[x].position >= -(saves * BAND)
  }

  /** Each save pushes rows down by one band at most: for up to 9223372036 saves every position fits
      into 64 bits. */
  lemma DepthGrowsByOneBand(t: Table, doc: nat, blocks: seq<Block>, saves: nat)
    requires Tidy(t) && Savable(t, doc, blocks) && NotBelow(t, saves)
    ensures NotBelow(Saved(t, doc, blocks), saves + 1)
    ensures saves + 1 <= 9_223_372_036 ==>
              forall x :: x in Saved(t, doc, blocks) ==>
                  -0x8000_0000_0000_0000 <= Saved(t, doc, blocks)[x].position < 0x8000_0000_0000_0000
  {
    var u := Saved(t, doc, blocks);
    forall x | x in u ensures -((saves + 1) * BAND) <= u[x].position < BAND {
      SavedAt(t, doc, blocks, x);
    }
  }
}
