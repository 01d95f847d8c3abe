/** Which blocks keep their identity across an edit: a longest common subsequence on block kinds. */
module BlockDiff {
  import opened Blocks

  type Kinds = seq<BlockKind>

  /** The best length reachable from the suffixes that start at i and j. */
  function Longest(a: Kinds, b: Kinds, i: nat, j: nat): nat
    requires i <= |a| && j <= |b|
    decreases |a| - i + |b| - j
  {
    if i == |a| || j == |b| then 0
    else if a[i] == b[j] then Longest(a, b, i + 1, j + 1) + 1
    else
      var x, y := Longest(a, b, i + 1, j), Longest(a, b, i, j + 1);
      if x >= y then x else y
  }

  /** An order-preserving, kind-respecting matching of the suffixes that start at i and j. */
  ghost predicate IsMatching(a: Kinds, b: Kinds, m: seq<(nat, nat)>, i: nat, j: nat) {
    && (forall k :: 0 <= k < |m| ==> i <= m[k].0 < |a| && j <= m[k].1 < |b| && a[m[k].0] == b[m[k].1])
    && (forall k, l :: 0 <= k < l < |m| ==> m[k].0 < m[l].0 && m[k].1 < m[l].1)
  }

  /** No matching is longer. */
  lemma {:induction false} LongestBounds(a: Kinds, b: Kinds, m: seq<(nat, nat)>, i: nat, j: nat)
    requires i <= |a| && j <= |b| && IsMatching(a, b, m, i, j)
    ensures |m| <= Longest(a, b, i, j)
    decreases |a| - i + |b| - j
  {
    if m != [] {
      assert i <= m[0].0 < |a| && j <= m[0].1 < |b|;
      assert forall k :: 1 <= k < |m| ==> m[0].0 < m[k].0 && m[0].1 < m[k].1;
      if a[i] == b[j] {
        LongestBounds(a, b, m[1..], i + 1, j + 1);
      } else if m[0].0 > i {
        LongestBounds(a, b, m, i + 1, j);
      } else {
        LongestBounds(a, b, m, i, j + 1);
      }
    }
  }

  /** The matching the traceback reads off the table. */
  function Trace(a: Kinds, b: Kinds, i: nat, j: nat): (m: seq<(nat, nat)>)
    requires i <= |a| && j <= |b|
    ensures IsMatching(a, b, m, i, j)
    ensures |m| == Longest(a, b, i, j)
    decreases |a| - i + |b| - j
  {
    if i == |a| || j == |b| then []
    else if a[i] == b[j] then [(i, j)] + Trace(a, b, i + 1, j + 1)
    else if Longest(a, b, i + 1, j) >= Longest(a, b, i, j + 1) then Trace(a, b, i + 1, j)
    else Trace(a, b, i, j + 1)
  }

  ghost predicate RowDone(table: array2<nat>, a: Kinds, b: Kinds, i: nat)
    requires table.Length0 == |a| + 1 && table.Length1 == |b| + 1 && i <= |a|
    reads table
  {
    forall j :: 0 <= j <= |b| ==> table[i, j] == Longest(a, b, i, j)
  }

  lemma LongestEdge(a: Kinds, b: Kinds, i: nat)
    requires i <= |a|
    ensures Longest(a, b, i, |b|) == 0
  {
  }

  lemma LongestCell(a: Kinds, b: Kinds, i: nat, j: nat)
    requires i < |a| && j < |b|
    ensures Longest(a, b, i, j) ==
              if a[i] == b[j] then Longest(a, b, i + 1, j + 1) + 1
              else if Longest(a, b, i + 1, j) >= Longest(a, b, i, j + 1) then Longest(a, b, i + 1, j)
              else Longest(a, b, i, j + 1)
  {
  }

  method FillRow(table: array2<nat>, a: Kinds, b: Kinds, i: nat)
    requires table.Length0 == |a| + 1 && table.Length1 == |b| + 1 && i < |a|
    requires RowDone(table, a, b, i + 1) && table[i, |b|] == 0
    modifies table
    ensures RowDone(table, a, b, i)
    ensures forall p, q :: 0 <= p <= |a| && p != i && 0 <= q <= |b| ==> table[p, q] == old(table[p, q])
  {
    hide Longest;
    LongestEdge(a, b, i);
    for j := |b| downto 0
      invariant forall q :: j <= q <= |b| ==> table[i, q] == Longest(a, b, i, q)
      invariant forall p, q :: 0 <= p <= |a| && p != i && 0 <= q <= |b| ==> table[p, q] == old(table[p, q])
    {
      LongestCell(a, b, i, j);
      assert table[i + 1, j] == Longest(a, b, i + 1, j) && table[i + 1, j + 1] == Longest(a, b, i + 1, j + 1);
      if a[i] == b[j] {
        table[i, j] := table[i + 1, j + 1] + 1;
      } else {
        table[i, j] := if table[i + 1, j] >= table[i, j + 1] then table[i + 1, j] else table[i, j + 1];
      }
    }
  }

  method FillTable(a: Kinds, b: Kinds) returns (table: array2<nat>)
    ensures fresh(table) && table.Length0 == |a| + 1 && table.Length1 == |b| + 1
    ensures forall i :: 0 <= i <= |a| ==> RowDone(table, a, b, i)
  {
    table := new nat[|a| + 1, |b| + 1]((_, _) => 0);
    for i := |a| downto 0
      invariant forall p :: i <= p <= |a| ==> RowDone(table, a, b, p)
      invariant forall p :: 0 <= p < i ==> table[p, |b|] == 0
    {
      label before:
      FillRow(table, a, b, i);
      forall p | i < p <= |a| ensures RowDone(table, a, b, p) {
        assert old@before(RowDone(table, a, b, p));
      }
    }
  }

  /** The pairs are an order-preserving, kind-respecting matching of greatest length. */
  method LcsMatches(a: Kinds, b: Kinds) returns (pairs: seq<(nat, nat)>)
    ensures pairs == Trace(a, b, 0, 0)
    ensures IsMatching(a, b, pairs, 0, 0)
    ensures forall m :: IsMatching(a, b, m, 0, 0) ==> |m| <= |pairs|
  {
    hide Longest, IsMatching;
    var table := FillTable(a, b);
    pairs := [];
    var i, j := 0, 0;
    while i < |a| && j < |b|
      invariant 0 <= i <= |a| && 0 <= j <= |b|
      invariant pairs + Trace(a, b, i, j) == Trace(a, b, 0, 0)
    {
      ghost var rest := Trace(a, b, i, j);
      assert RowDone(table, a, b, i) && RowDone(table, a, b, i + 1);
      assert table[i + 1, j] == Longest(a, b, i + 1, j) && table[i, j + 1] == Longest(a, b, i, j + 1);
      if a[i] == b[j] {
        assert pairs + rest == pairs + [(i, j)] + Trace(a, b, i + 1, j + 1);
        pairs := pairs + [(i, j)];
        i, j := i + 1, j + 1;
      } else if table[i + 1, j] >= table[i, j + 1] {
        assert rest == Trace(a, b, i + 1, j);
        i := i + 1;
      } else {
        assert rest == Trace(a, b, i, j + 1);
        j := j + 1;
      }
    }
    assert Trace(a, b, i, j) == [];
    forall m | IsMatching(a, b, m, 0, 0) ensures |m| <= |pairs| {
      LongestBounds(a, b, m, 0, 0);
    }
  }

  /** An unchanged sequence of kinds is matched position by position. */
  lemma {:induction false} TraceOfSame(a: Kinds, i: nat)
    requires i <= |a|
    ensures |Trace(a, a, i, i)| == |a| - i
    ensures forall k :: 0 <= k < |a| - i ==> Trace(a, a, i, i)[k] == (i + k, i + k)
    decreases |a| - i
  {
    if i < |a| {
      TraceOfSame(a, i + 1);
      assert Trace(a, a, i, i) == [(i, i)] + Trace(a, a, i + 1, i + 1);
    }
  }

  /** Every index is paired with itself. */
  ghost predicate Diagonal(m: seq<(nat, nat)>, n: nat) {
    |m| == n && forall k :: 0 <= k < n ==> m[k] == (k, k)
  }

  lemma WholeTraceOfSame(a: Kinds)
    ensures Diagonal(Trace(a, a, 0, 0), |a|)
  {
    TraceOfSame(a, 0);
  }

  // ----- which of the longest matchings

  /** Comparing two matchings by their first difference, the columns before j being settled: an earlier column
      is better; in the column that is next anyway an earlier row is better, after a gap a later one. */
  ghost predicate Preferred(t: seq<(nat, nat)>, m: seq<(nat, nat)>, j: nat) {
    || (t == [] && m == [])
    || (t != [] && m != []
        && (|| t[0].1 < m[0].1
            || (t[0].1 == m[0].1 && if t[0].1 == j then t[0].0 < m[0].0 else t[0].0 > m[0].0)
            || (t[0] == m[0] && Preferred(t[1..], m[1..], t[0].1 + 1))))
  }

  /** At most one matching is preferred to all others. */
  lemma {:induction false} PreferredIsUnique(t: seq<(nat, nat)>, m: seq<(nat, nat)>, j: nat)
    requires Preferred(t, m, j) && Preferred(m, t, j)
    ensures t == m
  {
    if t != [] {
      PreferredIsUnique(t[1..], m[1..], t[0].1 + 1);
      assert t == [t[0]] + t[1..] && m == [m[0]] + m[1..];
    }
  }

  lemma TailMatches(a: Kinds, b: Kinds, m: seq<(nat, nat)>, i: nat, j: nat)
    requires IsMatching(a, b, m, i, j) && m != []
    ensures IsMatching(a, b, m[1..], m[0].0 + 1, m[0].1 + 1)
  {
  }

  /** A matching that starts in a later row and column extends one in front of it. */
  lemma FrontMatches(a: Kinds, b: Kinds, m: seq<(nat, nat)>, p: nat, q: nat, i: nat, j: nat)
    requires IsMatching(a, b, m, p + 1, q + 1) && i <= p < |a| && j <= q < |b| && a[p] == b[q]
    ensures IsMatching(a, b, [(p, q)] + m, i, j)
  {
  }

  lemma LaterRows(a: Kinds, b: Kinds, m: seq<(nat, nat)>, i: nat, j: nat)
    requires IsMatching(a, b, m, i, j) && (m == [] || m[0].0 > i)
    ensures IsMatching(a, b, m, i + 1, j)
  {
  }

  lemma LaterColumns(a: Kinds, b: Kinds, m: seq<(nat, nat)>, i: nat, j: nat)
    requires IsMatching(a, b, m, i, j) && (m == [] || m[0].1 > j)
    ensures IsMatching(a, b, m, i, j + 1)
  {
  }

  /** The traceback takes the preferred one of all longest matchings. */
  lemma {:induction false} TraceIsPreferred(a: Kinds, b: Kinds, m: seq<(nat, nat)>, i: nat, j: nat)
    requires i <= |a| && j <= |b| && IsMatching(a, b, m, i, j) && |m| == Longest(a, b, i, j)
    ensures Preferred(Trace(a, b, i, j), m, j)
    decreases |a| - i + |b| - j
  {
    hide IsMatching, Longest;
    if i == |a| || j == |b| {
      LongestEnds(a, b, i, j);
    } else {
      LongestCell(a, b, i, j);
      var t := Trace(a, b, i, j);
      if m != [] { InBounds(a, b, m, i, j); }
      if a[i] == b[j] {
        if m[0] == (i, j) {
          TailMatches(a, b, m, i, j);
          TraceIsPreferred(a, b, m[1..], i + 1, j + 1);
        }
      } else if Longest(a, b, i + 1, j) >= Longest(a, b, i, j + 1) {
        if m == [] || m[0].0 > i {
          LaterRows(a, b, m, i, j);
          TraceIsPreferred(a, b, m, i + 1, j);
        } else {
          InBounds(a, b, t, i + 1, j);
          StartsNoLater(a, b, t, m, i, j);
        }
      } else {
        OnlyThisRow(a, b, m, i, j);
        LaterColumns(a, b, m, i, j);
        OnlyThisRow(a, b, t, i, j);
        TraceIsPreferred(a, b, m, i, j + 1);
      }
    }
  }

  lemma LongestEnds(a: Kinds, b: Kinds, i: nat, j: nat)
    requires i <= |a| && j <= |b| && (i == |a| || j == |b|)
    ensures Longest(a, b, i, j) == 0 && Trace(a, b, i, j) == []
  {
  }

  lemma InBounds(a: Kinds, b: Kinds, m: seq<(nat, nat)>, i: nat, j: nat)
    requires IsMatching(a, b, m, i, j) && m != []
    ensures i <= m[0].0 < |a| && j <= m[0].1 < |b| && a[m[0].0] == b[m[0].1]
  {
  }

  lemma StartsNoLater(a: Kinds, b: Kinds, t: seq<(nat, nat)>, m: seq<(nat, nat)>, i: nat, j: nat)
    requires i < |a| && j < |b| && IsMatching(a, b, t, i + 1, j) && IsMatching(a, b, m, i, j)
    requires |t| == |m| == Longest(a, b, i, j) && m != [] && m[0].0 == i
    ensures t[0].1 <= m[0].1
  {
    if t[0].1 > m[0].1 {
      FrontMatches(a, b, t, i, m[0].1, i, j);
      LongestBounds(a, b, [(i, m[0].1)] + t, i, j);
    }
  }

  lemma OnlyThisRow(a: Kinds, b: Kinds, m: seq<(nat, nat)>, i: nat, j: nat)
    requires i < |a| && j < |b| && a[i] != b[j] && Longest(a, b, i + 1, j) < Longest(a, b, i, j + 1)
    requires IsMatching(a, b, m, i, j) && |m| == Longest(a, b, i, j)
    ensures m != [] && m[0].0 == i && m[0].1 > j
  {
    LongestCell(a, b, i, j);
    if m[0].0 > i {
      LaterRows(a, b, m, i, j);
      LongestBounds(a, b, m, i + 1, j);
    }
  }
}
