/** Nested arrays (lib/column/array.go): one offset column per depth and a flat value column. */
module NestedArray {
  import opened Base
  import opened Native

  /** A Go value offered as a row. `Ref` is a non-nil pointer or interface, `Node` a slice, an array or
      a string, `Nil` a nil pointer or interface. */
  datatype Nest = Nil | Ref(to: Nest) | Leaf(v: Any) | Node(items: seq<Nest>)

  /** What the column keeps of it. */
  datatype Tree = Val(w: Stored) | List(items: seq<Tree>)

  /** What the leaf column keeps of a value, or None if it refuses. */
  type LeafColumn = Nest -> Option<Stored>

  /** Pointers and interfaces are followed down to something that is not one. */
  function Deref(n: Nest): (r: Nest)
    ensures !r.Ref?
  {
    if n.Ref? then Deref(n.to) else n
  }

  /** The value as a list of lists, `depth` deep. */
  function Convert(leaf: LeafColumn, n: Nest, depth: nat): Option<Tree>
    decreases depth, 0
  {
    if depth == 0 then
      match leaf(n)
      case None => None
      case Some(w) => Some(Val(w))
    else match Deref(n)
      case Node(items) =>
        (match ConvertAll(leaf, items, depth - 1)
         case None => None
         case Some(ts) => Some(List(ts)))
      case _ => None
  }

  function ConvertAll(leaf: LeafColumn, ns: seq<Nest>, depth: nat): Option<seq<Tree>>
    decreases depth, |ns| + 1
  {
    if ns == [] then Some([])
    else
      var n := |ns| - 1;
      match (ConvertAll(leaf, ns[..n], depth), Convert(leaf, ns[n], depth))
      case (Some(ts), Some(t)) => Some(ts + [t])
      case _ => None
  }

  // ---------------------------------------------------------------- what a value is kept as

  /** The list of lists that stands for a value: element by element the same, through pointers, with leaves as
      the leaf column keeps them. */
  ghost predicate StandsFor(leaf: LeafColumn, n: Nest, depth: nat, t: Tree)
    decreases depth, n
  {
    if depth == 0 then t.Val? && leaf(n) == Some(t.w)
    else match n
      case Ref(to) => StandsFor(leaf, to, depth, t)
      case Node(items) =>
        && t.List? && |t.items| == |items|
        && forall i | 0 <= i < |items| :: StandsFor(leaf, items[i], depth - 1, t.items[i])
      case _ => false
  }

  /** The value is a list of lists of the depth, and the leaf column takes every leaf. */
  ghost predicate Storable(leaf: LeafColumn, n: Nest, depth: nat)
    decreases depth, n
  {
    if depth == 0 then leaf(n).Some?
    else match n
      case Ref(to) => Storable(leaf, to, depth)
      case Node(items) => forall i | 0 <= i < |items| :: Storable(leaf, items[i], depth - 1)
      case _ => false
  }

  /** What `Convert` gives is that list, and it gives one exactly if there is one. */
  lemma {:induction false} ConvertIs(leaf: LeafColumn, n: Nest, depth: nat)
    ensures var t := Convert(leaf, n, depth);
      t.Some? == Storable(leaf, n, depth) && (t.Some? ==> StandsFor(leaf, n, depth, t.value))
    decreases depth, 2, n
  {
    if depth > 0 {
      match n
      case Ref(to) => ConvertIs(leaf, to, depth);
      case Node(items) => ConvertAllIs(leaf, items, depth - 1);
      case _ =>
    }
  }

  lemma {:induction false} ConvertAllIs(leaf: LeafColumn, ns: seq<Nest>, depth: nat)
    ensures var ts := ConvertAll(leaf, ns, depth);
      && (ts.Some? <==> forall i | 0 <= i < |ns| :: Storable(leaf, ns[i], depth))
      && (ts.Some? ==> |ts.value| == |ns| && forall i | 0 <= i < |ns| :: StandsFor(leaf, ns[i], depth, ts.value[i]))
    decreases depth, 3, |ns|
  {
    if ns != [] {
      var n := |ns| - 1;
      ConvertAllIs(leaf, ns[..n], depth);
      ConvertIs(leaf, ns[n], depth);
      assert forall i | 0 <= i < n :: ns[..n][i] == ns[i];
    }
  }

  // ---------------------------------------------------------------- what the columns hold

  predicate AllLists(rows: seq<Tree>) {
    forall i | 0 <= i < |rows| :: rows[i].List?
  }

  /** The elements of all rows, one after the other. */
  function Flatten(rows: seq<Tree>): seq<Tree> {
    if rows == [] then []
    else
      var n := |rows| - 1;
      Flatten(rows[..n]) + if rows[n].List? then rows[n].items else []
  }

  /** Where each row ends in the flattened rows. */
  function Ends(rows: seq<Tree>): (r: seq<nat>)
    ensures |r| == |rows|
  {
    seq(|rows|, i requires 0 <= i < |rows| => |Flatten(rows[..i + 1])|)
  }

  function Last(offsets: seq<nat>): nat {
    if offsets == [] then 0 else offsets[|offsets| - 1]
  }

  /** The columns from `level` down hold these rows: offsets are where the rows end, and the next
      level holds the flattened rows. */
  ghost predicate Holds(offsets: seq<seq<nat>>, values: seq<Stored>, level: nat, rows: seq<Tree>)
    requires level <= |offsets|
    decreases |offsets| - level
  {
    if level == |offsets| then
      |values| == |rows| && forall i | 0 <= i < |rows| :: rows[i] == Val(values[i])
    else
      AllLists(rows) && offsets[level] == Ends(rows) && Holds(offsets, values, level + 1, Flatten(rows))
  }

  lemma EndsLast(rows: seq<Tree>)
    ensures Last(Ends(rows)) == |Flatten(rows)|
  {
    if rows != [] { assert rows[..|rows|] == rows; }
  }

  lemma EndsSnoc(rows: seq<Tree>, row: Tree)
    requires row.List?
    ensures Ends(rows + [row]) == Ends(rows) + [Last(Ends(rows)) + |row.items|]
  {
    EndsLast(rows);
    var more := rows + [row];
    forall j | 0 <= j <= |rows| ensures more[..j] == rows[..j] {}
    assert more[..|rows| + 1] == more;
  }

  lemma {:induction false} FlattenPrefix(rows: seq<Tree>, k: nat)
    requires k <= |rows|
    ensures Flatten(rows[..k]) <= Flatten(rows)
  {
    if k == |rows| {
      assert rows[..k] == rows;
    } else {
      var n := |rows| - 1;
      FlattenPrefix(rows[..n], k);
      assert rows[..n][..k] == rows[..k];
    }
  }

  /** A row lies between the end of the row before and its own end. */
  lemma RowSpan(rows: seq<Tree>, i: nat)
    requires AllLists(rows) && i < |rows|
    ensures |Flatten(rows[..i])| + |rows[i].items| == |Flatten(rows[..i + 1])| <= |Flatten(rows)|
    ensures Flatten(rows)[|Flatten(rows[..i])|..|Flatten(rows[..i + 1])|] == rows[i].items
  {
    var upto := rows[..i + 1];
    assert upto[..i] == rows[..i] && upto[i] == rows[i];
    assert Flatten(upto) == Flatten(rows[..i]) + rows[i].items;
    FlattenPrefix(rows, i + 1);
    assert Flatten(rows)[..|Flatten(upto)|] == Flatten(upto);
  }

  lemma RowEnds(rows: seq<Tree>, i: nat)
    requires AllLists(rows) && i < |rows|
    ensures var start := if i > 0 then Ends(rows)[i - 1] else 0;
      start <= Ends(rows)[i] <= |Flatten(rows)| && rows[i] == List(Flatten(rows)[start..Ends(rows)[i]])
  {
    RowSpan(rows, i);
  }

  /** Where a row's elements lie in the level below. */
  lemma HoldsRow(offsets: seq<seq<nat>>, values: seq<Stored>, level: nat, rows: seq<Tree>, i: nat)
    requires level < |offsets| && Holds(offsets, values, level, rows) && i < |rows|
    ensures |offsets[level]| == |rows| && Holds(offsets, values, level + 1, Flatten(rows))
    ensures var start := if i > 0 then offsets[level][i - 1] else 0;
      start <= offsets[level][i] <= |Flatten(rows)| && rows[i] == List(Flatten(rows)[start..offsets[level][i]])
  {
    RowEnds(rows, i);
  }

  /** Changing only levels above `level` keeps what is held from `level` down. */
  lemma {:induction false} HoldsFrame(offsets: seq<seq<nat>>, offsets': seq<seq<nat>>, values: seq<Stored>, level: nat,
                                      rows: seq<Tree>)
    requires |offsets| == |offsets'| && level <= |offsets| && offsets[level..] == offsets'[level..]
    requires Holds(offsets, values, level, rows)
    ensures Holds(offsets', values, level, rows)
    decreases |offsets| - level
  {
    if level < |offsets| {
      assert offsets[level] == offsets[level..][0] && offsets'[level] == offsets'[level..][0];
      assert offsets[level + 1..] == offsets[level..][1..] && offsets'[level + 1..] == offsets'[level..][1..];
      HoldsFrame(offsets, offsets', values, level + 1, Flatten(rows));
    }
  }

  /** The rows determine the columns. */
  lemma {:induction false} HoldsUnique(offsets: seq<seq<nat>>, values: seq<Stored>, offsets': seq<seq<nat>>,
                                       values': seq<Stored>, level: nat, rows: seq<Tree>)
    requires |offsets| == |offsets'| && level <= |offsets|
    requires Holds(offsets, values, level, rows) && Holds(offsets', values', level, rows)
    ensures offsets[level..] == offsets'[level..] && values == values'
    decreases |offsets| - level
  {
    if level < |offsets| {
      HoldsUnique(offsets, values, offsets', values', level + 1, Flatten(rows));
      assert offsets[level..] == [offsets[level]] + offsets[level + 1..];
      assert offsets'[level..] == [offsets'[level]] + offsets'[level + 1..];
    } else {
      forall i | 0 <= i < |rows| ensures values[i] == values'[i] { assert rows[i] == Val(values[i]); }
    }
  }

  ghost predicate Monotone(s: seq<nat>) {
    forall i, j | 0 <= i < j < |s| :: s[i] <= s[j]
  }

  lemma {:induction false} FlattenGrows(rows: seq<Tree>, i: nat, j: nat)
    requires i <= j <= |rows|
    ensures |Flatten(rows[..i])| <= |Flatten(rows[..j])|
  {
    if i < j {
      FlattenGrows(rows, i, j - 1);
      assert rows[..j][..j - 1] == rows[..j - 1];
    }
  }

  lemma EndsMonotone(rows: seq<Tree>)
    ensures Monotone(Ends(rows))
  {
    forall i, j | 0 <= i < j < |rows| ensures Ends(rows)[i] <= Ends(rows)[j] { FlattenGrows(rows, i + 1, j + 1); }
  }

  /** The length of the column below `level`. */
  function Below(offsets: seq<seq<nat>>, values: seq<Stored>, level: nat): nat
    requires level < |offsets|
  {
    if level + 1 < |offsets| then |offsets[level + 1]| else |values|
  }

  /** Offsets grow, and each level's last offset is the length of the next level. */
  lemma {:induction false} HoldsShape(offsets: seq<seq<nat>>, values: seq<Stored>, level: nat, rows: seq<Tree>, at: nat)
    requires level <= at < |offsets| && Holds(offsets, values, level, rows)
    ensures Monotone(offsets[at]) && Last(offsets[at]) == Below(offsets, values, at)
    decreases at - level
  {
    if level < at {
      HoldsShape(offsets, values, level + 1, Flatten(rows), at);
    } else {
      EndsLast(rows);
      EndsMonotone(rows);
    }
  }

  // ---------------------------------------------------------------- the column

  class Array {
    const depth: nat
    const leaf: LeafColumn
    var offsets: seq<seq<nat>>
    var values: seq<Stored>

    ghost var rows: seq<Tree>

    ghost predicate Valid()
      reads this
    {
      |offsets| == depth >= 1 && Holds(offsets, values, 0, rows)
    }

    constructor (depth: nat, leaf: LeafColumn)
      requires depth >= 1
      ensures Valid() && fresh(this) && this.depth == depth && this.leaf == leaf && rows == []
    {
      this.depth, this.leaf := depth, leaf;
      offsets, values, rows := seq(depth, _ => []), [], [];
      new;
      EmptyHolds(offsets, 0);
    }

    method AppendOffset(level: nat, length: nat)
      requires level < |offsets|
      modifies this`offsets
      ensures offsets == old(offsets)[level := old(offsets)[level] + [Last(old(offsets)[level]) + length]]
    {
      var offset := length;
      var ln := |offsets[level]|;
      if ln != 0 {
        offset := offset + offsets[level][ln - 1];
      }
      offsets := offsets[level := offsets[level] + [offset]];
    }

    /** One element at `level`; what is held from there down grows by the element. */
    method Append(elem: Nest, level: nat, ghost held: seq<Tree>) returns (ok: bool)
      requires |offsets| == depth && level <= depth && Holds(offsets, values, level, held)
      modifies this`offsets, this`values
      ensures |offsets| == depth && offsets[..level] == old(offsets)[..level]
      ensures ok == Convert(leaf, elem, depth - level).Some?
      ensures ok ==> Holds(offsets, values, level, held + [Convert(leaf, elem, depth - level).value])
      decreases depth - level, 1, elem
    {
      if level < depth {
        if elem.Ref? {
          ok := Append(elem.to, level, held);
          return;
        }
        if elem.Node? {
          ok := AppendItems(elem.items, level, held);
          return;
        }
        return false;
      }
      var w := leaf(elem);
      if w.None? { return false; }
      values := values + [w.value];
      ok := true;
    }

    /** A list at `level`: its end, then its elements one level down. */
    method AppendItems(items: seq<Nest>, level: nat, ghost held: seq<Tree>) returns (ok: bool)
      requires |offsets| == depth && level < depth && Holds(offsets, values, level, held)
      modifies this`offsets, this`values
      ensures |offsets| == depth && offsets[..level] == old(offsets)[..level]
      ensures ok == ConvertAll(leaf, items, depth - level - 1).Some?
      ensures ok ==> Holds(offsets, values, level, held + [List(ConvertAll(leaf, items, depth - level - 1).value)])
      decreases depth - level, 0
    {
      ghost var before := offsets;
      AppendOffset(level, |items|);
      ghost var ends := offsets[level];
      HoldsFrame(before, offsets, values, level + 1, Flatten(held));
      ok := AppendEach(items, level + 1, Flatten(held));
      assert offsets[level] == offsets[..level + 1][level] == ends;
      assert offsets[..level] == offsets[..level + 1][..level] == before[..level];
      ConvertLength(leaf, items, depth - level - 1);
      if ok { HoldsList(offsets, values, level, held, ConvertAll(leaf, items, depth - level - 1).value, before); }
    }

    method AppendEach(items: seq<Nest>, level: nat, ghost held: seq<Tree>) returns (ok: bool)
      requires |offsets| == depth && level <= depth && Holds(offsets, values, level, held)
      modifies this`offsets, this`values
      ensures |offsets| == depth && offsets[..level] == old(offsets)[..level]
      ensures ok == ConvertAll(leaf, items, depth - level).Some?
      ensures ok ==> Holds(offsets, values, level, held + ConvertAll(leaf, items, depth - level).value)
      decreases depth - level, 3
    {
      var i := 0;
      ghost var got: seq<Tree> := [];
      assert held + got == held;
      while i < |items|
        invariant 0 <= i <= |items| && |offsets| == depth && offsets[..level] == old(offsets)[..level]
        invariant ConvertAll(leaf, items[..i], depth - level) == Some(got)
        invariant Holds(offsets, values, level, held + got)
      {
        ok, got := AppendNext(items, i, level, held, got);
        if !ok { return; }
        i := i + 1;
      }
      assert items[..i] == items;
      ok := true;
    }

    method AppendNext(items: seq<Nest>, i: nat, level: nat, ghost held: seq<Tree>, ghost got: seq<Tree>)
        returns (ok: bool, ghost got': seq<Tree>)
      requires i < |items| && |offsets| == depth && level <= depth
      requires ConvertAll(leaf, items[..i], depth - level) == Some(got) && Holds(offsets, values, level, held + got)
      modifies this`offsets, this`values
      ensures |offsets| == depth && offsets[..level] == old(offsets)[..level]
      ensures !ok ==> ConvertAll(leaf, items, depth - level).None?
      ensures ok ==>
        ConvertAll(leaf, items[..i + 1], depth - level) == Some(got') && Holds(offsets, values, level, held + got')
      decreases depth - level, 2
    {
      ConvertStep(leaf, items, i, depth - level, got);
      ok := Append(items[i], level, held + got);
      got' := got;
      if ok {
        ghost var t := Convert(leaf, items[i], depth - level).value;
        assert held + got + [t] == held + (got + [t]);
        got' := got + [t];
      }
    }

    /** The leaf column takes the values one by one. */
    method AppendLeaves(items: seq<Nest>, ghost held: seq<Tree>) returns (ok: bool)
      requires |offsets| == depth && Holds(offsets, values, depth, held)
      modifies this`values
      ensures ok == ConvertAll(leaf, items, 0).Some?
      ensures ok ==> Holds(offsets, values, depth, held + ConvertAll(leaf, items, 0).value)
    {
      var i := 0;
      ghost var got: seq<Tree> := [];
      assert held + got == held;
      while i < |items|
        invariant 0 <= i <= |items| && ConvertAll(leaf, items[..i], 0) == Some(got)
        invariant Holds(offsets, values, depth, held + got)
      {
        ConvertStep(leaf, items, i, 0, got);
        var w := leaf(items[i]);
        if w.None? { return false; }
        values := values + [w.value];
        assert held + got + [Val(w.value)] == held + (got + [Val(w.value)]);
        got := got + [Val(w.value)];
        i := i + 1;
      }
      assert items[..i] == items;
      ok := true;
    }

    /** The path for flat slices of known element types at depth one. */
    method AppendRowPlain(items: seq<Nest>) returns (ok: bool)
      requires Valid() && depth == 1
      modifies this
      ensures ok == Convert(leaf, Node(items), depth).Some?
      ensures ok ==> Valid() && rows == old(rows) + [Convert(leaf, Node(items), depth).value]
    {
      ghost var got := ConvertAll(leaf, items, 0);
      ok := AppendPlain(items, rows, got);
      if ok { rows := rows + [List(got.value)]; }
    }

    method AppendPlain(items: seq<Nest>, ghost held: seq<Tree>, ghost got: Option<seq<Tree>>) returns (ok: bool)
      requires |offsets| == depth == 1 && Holds(offsets, values, 0, held) && got == ConvertAll(leaf, items, 0)
      modifies this`offsets, this`values
      ensures |offsets| == depth && ok == got.Some?
      ensures ok ==> Holds(offsets, values, 0, held + [List(got.value)])
    {
      ghost var before := offsets;
      AppendOffset(0, |items|);
      HoldsFrame(before, offsets, values, 1, Flatten(held));
      ok := AppendLeaves(items, Flatten(held));
      ConvertLength(leaf, items, 0);
      if ok { HoldsList(offsets, values, 0, held, got.value, before); }
    }

    method AppendRowDefault(v: Nest) returns (ok: bool)
      requires Valid()
      modifies this
      ensures ok == Convert(leaf, v, depth).Some?
      ensures ok ==> Valid() && rows == old(rows) + [Convert(leaf, v, depth).value]
    {
      ok := Append(v, 0, rows);
      if ok { rows := rows + [Convert(leaf, v, depth).value]; }
    }

    /** `plain` says whether the value is a slice of one of the element types the flat path knows. */
    method AppendRow(v: Nest, plain: bool) returns (ok: bool)
      requires Valid()
      modifies this
      ensures ok == Convert(leaf, v, depth).Some?
      ensures ok ==> Valid() && rows == old(rows) + [Convert(leaf, v, depth).value]
    {
      if depth == 1 && plain && v.Node? {
        ok := AppendRowPlain(v.items);
      } else {
        ok := AppendRowDefault(v);
      }
    }

    method Encode() returns (ts: seq<Token>)
      ensures ts == OffsetTokens(offsets) + Native.Values(values)
    {
      ts := [];
      var level := 0;
      assert offsets[0..] == offsets;
      while level < |offsets|
        invariant 0 <= level <= |offsets|
        invariant ts + OffsetTokens(offsets[level..]) == OffsetTokens(offsets)
      {
        assert offsets[level..][1..] == offsets[level + 1..];
        ghost var rest := OffsetTokens(offsets[level + 1..]);
        assert ts + OffsetTokens(offsets[level..]) == (ts + KeyTokens(WIDE, offsets[level])) + rest;
        ts := ts + KeyTokens(WIDE, offsets[level]);
        level := level + 1;
      }
      ts := ts + Native.Values(values);
    }

    /** Reads into a new column; each level's last offset is the number of rows of the next. What it accepts
        is what stands at the front of the stream, and a stream with such columns at its front, which the
        ghost arguments name, is accepted. */
    method Decode(ts: seq<Token>, rowCount: nat, ghost os: seq<seq<nat>>, ghost ws: seq<Stored>) returns (ok: bool)
      requires |offsets| == depth
      modifies this`offsets, this`values
      ensures |offsets| == depth
      ensures ok ==> Written(ts, rowCount, offsets, values)
      ensures |os| == depth && Written(ts, rowCount, os, ws) ==> ok && offsets == os && values == ws
    {
      ghost var good := |os| == depth && Written(ts, rowCount, os, ws);
      var pos, count;
      ok, pos, count := DecodeOffsets(ts, rowCount, os, ws, good);
      if !ok { return; }
      var got;
      ok, got := ReadValues(ts, pos, count);
      if !ok { return; }
      if good { ValuesInjective(got, ws); }
      values := got;
      WrittenAll(ts, rowCount, offsets, values, pos);
    }

    method DecodeOffsets(ts: seq<Token>, rowCount: nat, ghost os: seq<seq<nat>>, ghost ws: seq<Stored>,
                         ghost good: bool)
        returns (ok: bool, pos: nat, count: nat)
      requires |offsets| == depth
      requires good ==> |os| == depth && Written(ts, rowCount, os, ws)
      modifies this`offsets
      ensures |offsets| == depth
      ensures ok ==> ReadTo(ts, rowCount, offsets, pos, count)
      ensures good ==> ok && offsets == os && At(ts, pos, Native.Values(ws)) && count == |ws|
    {
      pos, count := 0, rowCount;
      var level := 0;
      if good { assert os[0..] == os; }
      while level < |offsets|
        invariant 0 <= level <= |offsets| == depth
        invariant ReadTo(ts, rowCount, offsets[..level], pos, count)
        invariant good ==> Remaining(ts, pos, count, os, ws, offsets, level)
      {
        var got;
        ok, got := DecodeLevel(ts, pos, count, level, os, ws, good);
        if !ok { return; }
        ReadOn(ts, rowCount, offsets[..level], pos, count, got);
        assert offsets[level := got][..level + 1] == offsets[..level] + [got];
        offsets := offsets[level := got];
        pos, count := pos + |got|, Last(got);
        level := level + 1;
      }
      assert offsets[..level] == offsets;
      if good { assert os[..level] == os && os[level..] == [] && [] + Native.Values(ws) == Native.Values(ws); }
      ok := true;
    }

    /** One level; what was written there is what comes, and the rest stands behind it. */
    method DecodeLevel(ts: seq<Token>, pos: nat, count: nat, level: nat, ghost os: seq<seq<nat>>, ghost ws: seq<Stored>,
                       ghost good: bool)
        returns (ok: bool, got: seq<nat>)
      requires good ==> level < |os| && Remaining(ts, pos, count, os, ws, offsets, level) && |offsets| == |os|
      ensures ok ==> |got| == count && At(ts, pos, KeyTokens(WIDE, got))
      ensures good ==> ok && Remaining(ts, pos + |got|, Last(got), os, ws, offsets[level := got], level + 1)
    {
      if good { NextOffsets(ts, pos, os, level, ws); }
      ok, got := ReadKeys(ts, pos, count, WIDE);
      if good {
        KeysInjective(WIDE, got, os[level]);
        assert offsets[level := got][..level + 1] == offsets[..level] + [got] == os[..level + 1];
      }
    }

    /** The list at `row` of a level, rebuilt with a loop over its elements. */
    method ScanSlice(row: nat, level: nat, ghost held: seq<Tree>) returns (r: Tree)
      requires |offsets| == depth && level < depth && Holds(offsets, values, level, held) && row < |held|
      ensures r == held[row]
      decreases depth - level, 0
    {
      HoldsRow(offsets, values, level, held, row);
      var end := offsets[level][row];
      var start := 0;
      if row > 0 { start := offsets[level][row - 1]; }
      var items := ScanRange(start, end, level + 1, Flatten(held));
      r := List(items);
    }

    method ScanRange(start: nat, end: nat, level: nat, ghost held: seq<Tree>) returns (r: seq<Tree>)
      requires |offsets| == depth && level <= depth && Holds(offsets, values, level, held) && start <= end <= |held|
      ensures r == held[start..end]
      decreases depth - level, 2
    {
      r := [];
      var i := start;
      while i < end
        invariant start <= i <= end && r == held[start..i]
      {
        var value := ScanElement(i, level, held);
        r := r + [value];
        i := i + 1;
      }
    }

    method ScanElement(i: nat, level: nat, ghost held: seq<Tree>) returns (r: Tree)
      requires |offsets| == depth && level <= depth && Holds(offsets, values, level, held) && i < |held|
      ensures r == held[i]
      decreases depth - level, 1
    {
      if level == |offsets| {
        r := Val(values[i]);
      } else {
        r := ScanSlice(i, level, held);
      }
    }
  }

  // ---------------------------------------------------------------- the stream

  /** Offsets are 64-bit integers. */
  const WIDE: nat := 3

  function OffsetTokens(os: seq<seq<nat>>): seq<Token> {
    if os == [] then [] else KeyTokens(WIDE, os[0]) + OffsetTokens(os[1..])
  }

  /** The columns stand at the front of the stream. */
  ghost predicate Written(ts: seq<Token>, rowCount: nat, os: seq<seq<nat>>, ws: seq<Stored>) {
    Chained(os, 0, rowCount, ws) && OffsetTokens(os) + Native.Values(ws) <= ts
  }

  /** The levels up to here stand in front of `pos`, and the next one has `count` rows. */
  ghost predicate ReadTo(ts: seq<Token>, rowCount: nat, os: seq<seq<nat>>, pos: nat, count: nat) {
    |OffsetTokens(os)| == pos && At(ts, 0, OffsetTokens(os)) && Leads(os, rowCount, count)
  }

  /** Each level is as long as the last offset of the level above says, and `count` is the last one's. */
  ghost predicate Leads(os: seq<seq<nat>>, rowCount: nat, count: nat) {
    if os == [] then count == rowCount
    else
      var n := |os| - 1;
      count == Last(os[n]) && Leads(os[..n], rowCount, |os[n]|)
  }

  lemma {:induction false} OffsetTokensSnoc(os: seq<seq<nat>>, o: seq<nat>)
    ensures OffsetTokens(os + [o]) == OffsetTokens(os) + KeyTokens(WIDE, o)
  {
    if os == [] {
      assert OffsetTokens([o]) == KeyTokens(WIDE, o) + OffsetTokens([]);
    } else {
      OffsetTokensSnoc(os[1..], o);
      assert (os + [o])[1..] == os[1..] + [o];
    }
  }

  lemma ReadOn(ts: seq<Token>, rowCount: nat, os: seq<seq<nat>>, pos: nat, count: nat, got: seq<nat>)
    requires ReadTo(ts, rowCount, os, pos, count) && |got| == count && At(ts, pos, KeyTokens(WIDE, got))
    ensures ReadTo(ts, rowCount, os + [got], pos + |got|, Last(got))
  {
    OffsetTokensSnoc(os, got);
    assert (os + [got])[..|os|] == os;
    var a, b := OffsetTokens(os), KeyTokens(WIDE, got);
    assert ts[..pos + |b|] == ts[..pos] + ts[pos..pos + |b|] == a + b;
  }

  /** Levels that lead to a chain are one. */
  lemma {:induction false} LeadsChained(os: seq<seq<nat>>, level: nat, rowCount: nat, count: nat, ws: seq<Stored>)
    requires level <= |os| && Leads(os[..level], rowCount, count) && Chained(os, level, count, ws)
    ensures Chained(os, 0, rowCount, ws)
    decreases level
  {
    if level > 0 {
      assert os[..level][..level - 1] == os[..level - 1];
      LeadsChained(os, level - 1, rowCount, |os[level - 1]|, ws);
    }
  }

  lemma WrittenAll(ts: seq<Token>, rowCount: nat, os: seq<seq<nat>>, ws: seq<Stored>, pos: nat)
    requires ReadTo(ts, rowCount, os, pos, |ws|) && At(ts, pos, Native.Values(ws))
    ensures Written(ts, rowCount, os, ws)
  {
    assert os[..|os|] == os;
    LeadsChained(os, |os|, rowCount, |ws|, ws);
    var a, b := OffsetTokens(os), Native.Values(ws);
    assert ts[..pos + |b|] == ts[..pos] + ts[pos..pos + |b|] == a + b;
  }

  /** What was written from a level on stands at `pos`, and the levels before have been read. */
  ghost predicate Remaining(ts: seq<Token>, pos: nat, count: nat, os: seq<seq<nat>>, ws: seq<Stored>,
                            offsets: seq<seq<nat>>, level: nat) {
    && level <= |os| == |offsets| && offsets[..level] == os[..level] && Chained(os, level, count, ws)
    && At(ts, pos, OffsetTokens(os[level..]) + Native.Values(ws))
  }

  /** Each level is as long as the last offset of the level above says. */
  ghost predicate Chained(os: seq<seq<nat>>, level: nat, count: nat, ws: seq<Stored>)
    requires level <= |os|
    decreases |os| - level
  {
    if level == |os| then |ws| == count else |os[level]| == count && Chained(os, level + 1, Last(os[level]), ws)
  }

  lemma {:induction false} HoldsChained(os: seq<seq<nat>>, ws: seq<Stored>, level: nat, rows: seq<Tree>)
    requires level <= |os| && Holds(os, ws, level, rows)
    ensures Chained(os, level, |rows|, ws)
    decreases |os| - level
  {
    if level < |os| {
      EndsLast(rows);
      HoldsChained(os, ws, level + 1, Flatten(rows));
    }
  }

  lemma NextOffsets(ts: seq<Token>, pos: nat, os: seq<seq<nat>>, level: nat, ws: seq<Stored>)
    requires level < |os| && At(ts, pos, OffsetTokens(os[level..]) + Native.Values(ws))
    ensures At(ts, pos, KeyTokens(WIDE, os[level])) && pos + |os[level]| <= |ts|
    ensures forall i | pos <= i < pos + |os[level]| :: ts[i] == Key(WIDE, os[level][i - pos])
    ensures At(ts, pos + |os[level]|, OffsetTokens(os[level + 1..]) + Native.Values(ws))
  {
    assert os[level..][1..] == os[level + 1..];
    var first, rest := KeyTokens(WIDE, os[level]), OffsetTokens(os[level + 1..]) + Native.Values(ws);
    assert OffsetTokens(os[level..]) + Native.Values(ws) == first + rest;
    AtSplit(ts, pos, first, rest);
    KeysReadable(ts, pos, WIDE, os[level]);
  }

  lemma {:induction false} EmptyHolds(offsets: seq<seq<nat>>, level: nat)
    requires level <= |offsets| && forall l | 0 <= l < |offsets| :: offsets[l] == []
    ensures Holds(offsets, [], level, [])
    decreases |offsets| - level
  {
    if level < |offsets| { EmptyHolds(offsets, level + 1); }
  }

  /** A list is converted only if each of its prefixes is. */
  lemma {:induction false} ConvertPrefix(leaf: LeafColumn, ns: seq<Nest>, i: nat, depth: nat)
    requires i <= |ns|
    ensures ConvertAll(leaf, ns, depth).Some? ==> ConvertAll(leaf, ns[..i], depth).Some?
    decreases |ns|
  {
    if i < |ns| {
      ConvertPrefix(leaf, ns[..|ns| - 1], i, depth);
      assert ns[..|ns| - 1][..i] == ns[..i];
    } else {
      assert ns[..i] == ns;
    }
  }

  lemma ConvertStep(leaf: LeafColumn, ns: seq<Nest>, i: nat, depth: nat, got: seq<Tree>)
    requires i < |ns| && ConvertAll(leaf, ns[..i], depth) == Some(got)
    ensures Convert(leaf, ns[i], depth).None? ==> ConvertAll(leaf, ns, depth).None?
    ensures Convert(leaf, ns[i], depth).Some? ==>
      ConvertAll(leaf, ns[..i + 1], depth) == Some(got + [Convert(leaf, ns[i], depth).value])
  {
    assert ns[..i + 1][..i] == ns[..i];
    ConvertPrefix(leaf, ns, i + 1, depth);
  }

  lemma {:induction false} ConvertLength(leaf: LeafColumn, ns: seq<Nest>, depth: nat)
    ensures ConvertAll(leaf, ns, depth).Some? ==> |ConvertAll(leaf, ns, depth).value| == |ns|
    decreases |ns|
  {
    if ns != [] { ConvertLength(leaf, ns[..|ns| - 1], depth); }
  }

  lemma HoldsList(offsets: seq<seq<nat>>, values: seq<Stored>, level: nat, held: seq<Tree>, got: seq<Tree>,
                  before: seq<seq<nat>>)
    requires |offsets| == |before| && level < |offsets| && before[level] == Ends(held) && AllLists(held)
    requires offsets[level] == before[level] + [Last(before[level]) + |got|]
    requires Holds(offsets, values, level + 1, Flatten(held) + got)
    ensures Holds(offsets, values, level, held + [List(got)])
  {
    EndsSnoc(held, List(got));
  }

  // ---------------------------------------------------------------- whole runs

  method AppendAll(col: Array, vs: seq<Nest>, plain: Nest -> bool) returns (ok: bool)
    requires col.Valid() && col.rows == []
    modifies col
    ensures ok == ConvertAll(col.leaf, vs, col.depth).Some?
    ensures ok ==> col.Valid() && col.rows == ConvertAll(col.leaf, vs, col.depth).value
  {
    var i := 0;
    while i < |vs|
      invariant 0 <= i <= |vs| && col.Valid() && ConvertAll(col.leaf, vs[..i], col.depth) == Some(col.rows)
    {
      ConvertStep(col.leaf, vs, i, col.depth, col.rows);
      ok := col.AppendRow(vs[i], plain(vs[i]));
      if !ok { return; }
      i := i + 1;
    }
    assert vs[..i] == vs;
    ok := true;
  }

  method ScanAll(col: Array, count: nat, ghost rows: seq<Tree>) returns (r: seq<Tree>)
    requires |col.offsets| == col.depth >= 1 && Holds(col.offsets, col.values, 0, rows) && count == |rows|
    ensures r == rows
  {
    r := [];
    var i := 0;
    while i < count
      invariant 0 <= i <= count && r == rows[..i]
    {
      var row := col.ScanSlice(i, 0, rows);
      r := r + [row];
      i := i + 1;
    }
  }

  /** Scanning gives every appended list back, straight from the column and after encoding and
      decoding it, whichever path the appends took. */
  method RoundTrip(depth: nat, leaf: LeafColumn, vs: seq<Nest>, plain: Nest -> bool)
      returns (ok: bool, direct: seq<Tree>, decoded: seq<Tree>)
    requires depth >= 1
    ensures ok <==> forall i | 0 <= i < |vs| :: Storable(leaf, vs[i], depth)
    ensures ok ==> direct == decoded && |direct| == |vs|
    ensures ok ==> forall i | 0 <= i < |vs| :: StandsFor(leaf, vs[i], depth, direct[i])
  {
    ConvertAllIs(leaf, vs, depth);
    direct, decoded := [], [];
    var col := new Array(depth, leaf);
    ok := AppendAll(col, vs, plain);
    if !ok { return; }
    ConvertLength(leaf, vs, depth);
    direct := ScanAll(col, |vs|, col.rows);
    var ts := col.Encode();
    var back := new Array(depth, leaf);
    HoldsChained(col.offsets, col.values, 0, col.rows);
    var read := back.Decode(ts, |vs|, col.offsets, col.values);
    decoded := ScanAll(back, |vs|, col.rows);
  }

  /** The flat path builds the same columns as the recursive one. */
  method SamePath(depth: nat, leaf: LeafColumn, vs: seq<Nest>, plain: Nest -> bool, other: Nest -> bool)
      returns (ok: bool, offsets: seq<seq<nat>>, values: seq<Stored>, offsets': seq<seq<nat>>, values': seq<Stored>)
    requires depth >= 1
    ensures ok == ConvertAll(leaf, vs, depth).Some?
    ensures ok ==>
      offsets == offsets' && values == values' && Holds(offsets, values, 0, ConvertAll(leaf, vs, depth).value)
  {
    var a := new Array(depth, leaf);
    ok := AppendAll(a, vs, plain);
    var b := new Array(depth, leaf);
    var ok' := AppendAll(b, vs, other);
    offsets, values, offsets', values' := a.offsets, a.values, b.offsets, b.values;
    if ok {
      HoldsUnique(offsets, values, offsets', values', 0, a.rows);
      assert offsets == offsets[0..] && offsets' == offsets'[0..];
    }
  }
}
