/** Rows split over several sub-columns by a discriminator per row, as Variant and Dynamic
    columns do it: what each sub-column holds, how many rows of it there are, and where a row
    finds its value again. Renumbering the sub-columns moves whole columns and changes none. */
module Demux {
  import opened Base
  import opened Native

  /** A row after the split: null, or a value in one of the sub-columns. */
  datatype Cell = Null | Cell(column: nat, value: Stored)

  /** The values of sub-column `c`, in row order. */
  function Project(cells: seq<Cell>, c: nat): seq<Stored> {
    if cells == [] then []
    else
      var n := |cells| - 1;
      Project(cells[..n], c) + if cells[n].Cell? && cells[n].column == c then [cells[n].value] else []
  }

  /** How many of the discriminators are `d`. */
  function Count(ds: seq<int>, d: int): nat {
    if ds == [] then 0
    else
      var n := |ds| - 1;
      Count(ds[..n], d) + if ds[n] == d then 1 else 0
  }

  /** Every sub-column holds exactly the values of its rows. */
  ghost predicate Split(cells: seq<Cell>, columns: seq<seq<Stored>>) {
    && (forall i | 0 <= i < |cells| :: cells[i].Cell? ==> cells[i].column < |columns|)
    && (forall c | 0 <= c < |columns| :: columns[c] == Project(cells, c))
  }

  lemma {:induction false} ProjectUnused(cells: seq<Cell>, c: nat)
    requires forall i | 0 <= i < |cells| :: cells[i].Cell? ==> cells[i].column != c
    ensures Project(cells, c) == []
  {
    if cells != [] { ProjectUnused(cells[..|cells| - 1], c); }
  }

  /** A new, empty sub-column at the end. */
  lemma SplitColumn(cells: seq<Cell>, columns: seq<seq<Stored>>)
    requires Split(cells, columns)
    ensures Split(cells, columns + [[]])
  {
    ProjectUnused(cells, |columns|);
    forall c | 0 <= c < |columns| + 1 ensures (columns + [[]])[c] == Project(cells, c) {}
  }

  /** The discriminators name the columns of the cells; `nul` stands for null and names no column. */
  ghost predicate Coded(cells: seq<Cell>, ds: seq<int>, nul: int) {
    && |ds| == |cells|
    && forall i | 0 <= i < |cells| ::
      if cells[i].Cell? then ds[i] == cells[i].column && ds[i] != nul else ds[i] == nul
  }

  /** Each sub-column has as many rows as its discriminator occurs. */
  lemma {:induction false} ProjectCount(cells: seq<Cell>, ds: seq<int>, nul: int, c: nat)
    requires Coded(cells, ds, nul) && c as int != nul
    ensures |Project(cells, c)| == Count(ds, c)
  {
    if cells != [] {
      var n := |cells| - 1;
      ProjectCount(cells[..n], ds[..n], nul, c);
    }
  }

  /** A row finds its value at the number of earlier rows of its own type. */
  lemma {:induction false} ProjectAt(cells: seq<Cell>, ds: seq<int>, nul: int, i: nat)
    requires Coded(cells, ds, nul) && i < |cells| && cells[i].Cell?
    ensures var p := Project(cells, cells[i].column); var k := Count(ds[..i], ds[i]);
      k < |p| && p[k] == cells[i].value
  {
    var n := |cells| - 1;
    if i == n {
      ProjectCount(cells[..n], ds[..n], nul, cells[i].column);
    } else {
      ProjectAt(cells[..n], ds[..n], nul, i);
      assert ds[..n][..i] == ds[..i];
    }
  }

  /** The offsets a decoder fills in: how many earlier rows have the same discriminator. */
  ghost predicate Ranked(ds: seq<int>, offsets: seq<nat>) {
    |offsets| == |ds| && forall i | 0 <= i < |ds| :: offsets[i] == Count(ds[..i], ds[i])
  }

  /** Looking a row up through its discriminator and offset gives the cell back. */
  lemma Lookup(cells: seq<Cell>, ds: seq<int>, nul: int, columns: seq<seq<Stored>>, offset: nat, i: nat)
    requires Coded(cells, ds, nul) && Split(cells, columns) && i < |cells|
    requires ds[i] != nul ==> offset == Count(ds[..i], ds[i])
    ensures ds[i] != nul ==>
      0 <= ds[i] < |columns| && offset < |columns[ds[i]]| && cells[i] == Cell(ds[i], columns[ds[i]][offset])
    ensures ds[i] == nul ==> cells[i] == Null
  {
    if cells[i].Cell? {
      ProjectAt(cells, ds, nul, i);
      assert columns[cells[i].column] == Project(cells, cells[i].column);
    }
  }

  // ---------------------------------------------------------------- renumbering the sub-columns

  ghost predicate Within(cells: seq<Cell>, n: nat) {
    forall i | 0 <= i < |cells| :: cells[i].Cell? ==> cells[i].column < n
  }

  ghost predicate Injective(p: seq<nat>) {
    forall i, j | 0 <= i < j < |p| :: p[i] != p[j]
  }

  /** Every cell in the column that `p` gives for its own. */
  function Moved(cells: seq<Cell>, p: seq<nat>): (r: seq<Cell>)
    ensures |r| == |cells|
  {
    seq(|cells|, i requires 0 <= i < |cells| =>
      if cells[i].Cell? && cells[i].column < |p| then Cell(p[cells[i].column], cells[i].value) else cells[i])
  }

  /** Renumbering moves whole sub-columns: none of their contents changes. */
  lemma {:induction false} ProjectMoved(cells: seq<Cell>, p: seq<nat>, c: nat)
    requires Within(cells, |p|) && Injective(p) && c < |p|
    ensures Project(Moved(cells, p), p[c]) == Project(cells, c)
  {
    if cells != [] {
      var n := |cells| - 1;
      ProjectMoved(cells[..n], p, c);
      assert Moved(cells, p)[..n] == Moved(cells[..n], p);
    }
  }

  // ---------------------------------------------------------------- decoding discriminators

  function Get(counts: map<int, nat>, d: int): nat {
    if d in counts then counts[d] else 0
  }

  ghost predicate Tallied(ds: seq<int>, counts: map<int, nat>) {
    forall d :: Get(counts, d) == Count(ds, d)
  }

  /** The discriminators as the decoder keeps them. */
  function Renamed(ks: seq<nat>, rename: nat -> int): (ds: seq<int>)
    ensures |ds| == |ks|
  {
    seq(|ks|, i requires 0 <= i < |ks| => rename(ks[i]))
  }

  /** Reads one-byte discriminators, counting how often each has come so far: that count is the
      row's offset in its sub-column. */
  method ReadDiscriminators(ts: seq<Token>, pos: nat, rows: nat, rename: nat -> int, ghost written: seq<nat>)
      returns (ok: bool, ds: seq<int>, offsets: seq<nat>, counts: map<int, nat>)
    ensures ok ==> |ds| == rows && Ranked(ds, offsets) && Tallied(ds, counts)
    ensures |written| == rows && At(ts, pos, KeyTokens(0, written)) ==> ok && ds == Renamed(written, rename)
  {
    ghost var good := |written| == rows && At(ts, pos, KeyTokens(0, written));
    if good { KeysReadable(ts, pos, 0, written); }
    ds, offsets, counts := [], [], map[];
    var i := 0;
    while i < rows
      invariant 0 <= i == |ds| == |offsets| <= rows
      invariant Ranked(ds, offsets) && Tallied(ds, counts)
      invariant good ==>
        |written| == rows && pos + rows <= |ts| && forall j | pos <= j < pos + rows :: ts[j] == Key(0, written[j - pos])
      invariant good ==> ds == Renamed(written[..i], rename)
    {
      if pos + i >= |ts| || !ts[pos + i].Key? || ts[pos + i].width != 0 {
        ok := false;
        return;
      }
      var d := rename(ts[pos + i].k);
      ghost var before := counts;
      counts := if Get(counts, d) == 0 then counts[d := 1] else counts[d := counts[d] + 1];
      TallyStep(ds, offsets, before, counts, d);
      offsets := offsets + [counts[d] - 1];
      if good { assert written[..i + 1] == written[..i] + [written[i]]; }
      ds := ds + [d];
      i := i + 1;
    }
    if good { assert written[..i] == written; }
    ok := true;
  }

  lemma TallyStep(ds: seq<int>, offsets: seq<nat>, counts: map<int, nat>, next: map<int, nat>, d: int)
    requires Ranked(ds, offsets) && Tallied(ds, counts) && next == counts[d := Get(counts, d) + 1]
    ensures Ranked(ds + [d], offsets + [next[d] - 1]) && Tallied(ds + [d], next)
  {
    forall e ensures Get(next, e) == Count(ds + [d], e) {}
    var ds', offsets' := ds + [d], offsets + [next[d] - 1];
    forall i | 0 <= i < |ds'| ensures offsets'[i] == Count(ds'[..i], ds'[i]) {
      if i < |ds| { assert ds'[..i] == ds[..i]; } else { assert ds'[..i] == ds; }
    }
  }
}
