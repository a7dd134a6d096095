/** The older Dynamic format (lib/column/dynamic_deprecated.go), with sub-columns in the order of their names. */
module DynamicV1 {
  import opened Base
  import opened Native
  import opened Demux
  import opened Sorting
  import opened Dynamic

  // ---------------------------------------------------------------- sorting

  /** The index names, for every type, the last sub-column of that type. */
  ghost predicate Latest(names: seq<string>, index: map<string, nat>) {
    && (forall k | 0 <= k < |names| ::
      names[k] in index && k <= index[names[k]] < |names| && names[index[names[k]]] == names[k])
    && (forall t | t in index :: t in names)
  }

  method Reindex(names: seq<string>, before: map<string, nat>) returns (index: map<string, nat>)
    requires forall t | t in before :: t in names
    ensures Latest(names, index)
  {
    index := before;
    var i := 0;
    while i < |names|
      invariant 0 <= i <= |names|
      invariant forall k | 0 <= k < i ::
        names[k] in index && k <= index[names[k]] < i && names[index[names[k]]] == names[k]
      invariant forall t | t in index :: t in names
    {
      index := index[names[i] := i];
      i := i + 1;
    }
  }

  lemma LatestIndexed(names: seq<string>, index: map<string, nat>)
    requires Latest(names, index)
    ensures Indexed(names, index)
  {
  }

  /** Where each sub-column goes. */
  function Places(previous: seq<string>, index: map<string, nat>): (p: seq<nat>)
    requires forall k | 0 <= k < |previous| :: previous[k] in index
    ensures |p| == |previous|
  {
    seq(|previous|, i requires 0 <= i < |previous| => index[previous[i]])
  }

  /** Slots nothing was put into stay None. */
  ghost predicate Placed(columns: seq<Sub>, p: seq<nat>, sorted: seq<Option<Sub>>) {
    && |p| <= |columns| == |sorted| && (forall i | 0 <= i < |p| :: p[i] < |sorted| && sorted[p[i]].Some?)
    && (forall k | 0 <= k < |sorted| :: sorted[k].Some? ==> k in p)
    && (Injective(p) ==> forall i | 0 <= i < |p| :: sorted[p[i]] == Some(columns[i]))
  }

  lemma PlacedStep(columns: seq<Sub>, p: seq<nat>, sorted: seq<Option<Sub>>, d: nat)
    requires Placed(columns, p, sorted) && |p| < |columns| && d < |sorted|
    ensures Placed(columns, p + [d], sorted[d := Some(columns[|p|])])
  {
    var p', sorted' := p + [d], sorted[d := Some(columns[|p|])];
    assert p'[|p|] == d;
    forall k | 0 <= k < |sorted| && sorted'[k].Some? ensures k in p' { if k != d { assert k in p; } }
    if Injective(p') {
      forall i, j | 0 <= i < j < |p| ensures p[i] != p[j] { assert p'[i] != p'[j]; }
      forall i | 0 <= i < |p'| ensures sorted'[p'[i]] == Some(columns[i]) {
        if i < |p| { assert p'[i] != p'[|p|]; }
      }
    }
  }

  method Rearrange(previous: seq<string>, index: map<string, nat>, columns: seq<Sub>)
      returns (p: seq<nat>, sorted: seq<Option<Sub>>)
    requires |previous| == |columns|
    requires forall k | 0 <= k < |previous| :: previous[k] in index && index[previous[k]] < |columns|
    ensures p == Places(previous, index) && Placed(columns, p, sorted)
  {
    p, sorted := [], seq(|columns|, _ => None);
    var i := 0;
    while i < |previous|
      invariant 0 <= i == |p| <= |previous|
      invariant forall k | 0 <= k < i :: p[k] == index[previous[k]]
      invariant Placed(columns, p, sorted)
    {
      var correct := index[previous[i]];
      PlacedStep(columns, p, sorted, correct);
      p := p + [correct];
      sorted := sorted[correct := Some(columns[i])];
      i := i + 1;
    }
  }

  method Renumber(ds: seq<int>, p: seq<nat>, ghost cells: seq<Cell>) returns (r: seq<int>)
    requires Coded(cells, ds, NULL) && Within(cells, |p|)
    ensures Coded(Moved(cells, p), r, NULL)
  {
    r := ds;
    var i := 0;
    while i < |ds|
      invariant 0 <= i <= |ds| == |r|
      invariant forall k | 0 <= k < i :: if cells[k].Cell? then r[k] == p[cells[k].column] else r[k] == NULL
      invariant forall k | i <= k < |ds| :: r[k] == ds[k]
    {
      if r[i] != NULL {
        r := r[i := p[r[i]]];
      }
      i := i + 1;
    }
  }

  /** The permutation keeps every sub-column's type name. */
  lemma PlacesNames(previous: seq<string>, names: seq<string>, index: map<string, nat>, i: nat)
    requires names == Sort(previous) && Latest(names, index) && i < |previous|
    ensures previous[i] in index && index[previous[i]] < |names| && names[index[previous[i]]] == previous[i]
  {
    SortMembers(previous, previous[i]);
    LatestIndexed(names, index);
  }

  lemma PlacesInjective(previous: seq<string>, names: seq<string>, index: map<string, nat>)
    requires names == Sort(previous) && Latest(names, index) && Distinct(previous)
    requires forall k | 0 <= k < |previous| :: previous[k] in index
    ensures Injective(Places(previous, index))
  {
  }

  /** With distinct names every slot is reached. */
  lemma SlotReached(previous: seq<string>, names: seq<string>, index: map<string, nat>, k: nat) returns (i: nat)
    requires names == Sort(previous) && Latest(names, index) && Distinct(previous) && k < |names|
    ensures i < |previous| && previous[i] in index && index[previous[i]] == k
  {
    SortMembers(previous, names[k]);
    assert names[k] in names;
    i :| 0 <= i < |previous| && previous[i] == names[k];
    SortDistinct(previous);
    assert k <= index[names[k]];
  }

  /** With a repeated name the first slot of that name is never reached. */
  lemma SlotMissed(previous: seq<string>, names: seq<string>, index: map<string, nat>) returns (k: nat)
    requires names == Sort(previous) && Latest(names, index) && !Distinct(previous)
    requires forall i | 0 <= i < |previous| :: previous[i] in index
    ensures k < |names| && k !in Places(previous, index)
  {
    SortDistinct(previous);
    var j;
    k, j :| 0 <= k < j < |names| && names[k] == names[j];
    forall i | 0 <= i < |previous| ensures index[previous[i]] != k {
      PlacesNames(previous, names, index, i);
      assert j <= index[names[j]];
    }
  }

  /** All slots are filled exactly when no type name repeats. */
  lemma CompleteIff(previous: seq<string>, names: seq<string>, index: map<string, nat>, columns: seq<Sub>,
                    sorted: seq<Option<Sub>>)
    requires names == Sort(previous) && Latest(names, index) && |columns| == |previous|
    requires forall k | 0 <= k < |previous| :: previous[k] in index
    requires Placed(columns, Places(previous, index), sorted)
    ensures (forall k | 0 <= k < |sorted| :: sorted[k].Some?) <==> Distinct(previous)
  {
    var p := Places(previous, index);
    if Distinct(previous) {
      forall k | 0 <= k < |sorted| ensures sorted[k].Some? {
        var i := SlotReached(previous, names, index, k);
        assert p[i] == k;
      }
    } else {
      var k := SlotMissed(previous, names, index);
      assert sorted[k].None?;
    }
  }

  function Filled(sorted: seq<Option<Sub>>): (r: seq<Sub>)
    requires forall k | 0 <= k < |sorted| :: sorted[k].Some?
    ensures |r| == |sorted|
  {
    seq(|sorted|, k requires 0 <= k < |sorted| => sorted[k].value)
  }

  lemma SortedSlot(cells: seq<Cell>, columns: seq<Sub>, previous: seq<string>, names: seq<string>,
                   index: map<string, nat>, sorted: seq<Option<Sub>>, k: nat)
    requires Split(cells, Logs(columns)) && previous == Names(columns) && names == Sort(previous)
    requires Latest(names, index) && Distinct(previous) && k < |sorted|
    requires forall i | 0 <= i < |previous| :: previous[i] in index
    requires Placed(columns, Places(previous, index), sorted)
    ensures sorted[k] == Some(Sub(names[k], Project(Moved(cells, Places(previous, index)), k)))
  {
    var p := Places(previous, index);
    PlacesInjective(previous, names, index);
    var i := SlotReached(previous, names, index, k);
    assert p[i] == k && previous[i] == columns[i].typ && sorted[p[i]] == Some(columns[i]);
    assert Logs(columns)[i] == Project(cells, i);
    ProjectMoved(cells, p, i);
    PlacesNames(previous, names, index, i);
  }

  lemma MovedColumn(cells: seq<Cell>, previous: seq<string>, names: seq<string>, index: map<string, nat>, i: nat)
    requires names == Sort(previous) && Latest(names, index) && Within(cells, |previous|)
    requires forall k | 0 <= k < |previous| :: previous[k] in index
    requires i < |cells| && cells[i].Cell?
    ensures Moved(cells, Places(previous, index))[i].column < |names|
  {
    PlacesNames(previous, names, index, cells[i].column);
  }

  lemma MovedWithin(cells: seq<Cell>, previous: seq<string>, names: seq<string>, index: map<string, nat>)
    requires names == Sort(previous) && Latest(names, index) && Within(cells, |previous|)
    requires forall i | 0 <= i < |previous| :: previous[i] in index
    ensures Within(Moved(cells, Places(previous, index)), |names|)
  {
    var moved := Moved(cells, Places(previous, index));
    forall i | 0 <= i < |moved| && moved[i].Cell? ensures moved[i].column < |names| {
      MovedColumn(cells, previous, names, index, i);
    }
  }

  /** The rearranged sub-columns hold the renumbered rows, under the sorted names. */
  lemma SortedSplit(cells: seq<Cell>, columns: seq<Sub>, previous: seq<string>, names: seq<string>,
                    index: map<string, nat>, sorted: seq<Option<Sub>>)
    requires Split(cells, Logs(columns)) && previous == Names(columns) && names == Sort(previous)
    requires Latest(names, index) && Distinct(previous)
    requires forall k | 0 <= k < |previous| :: previous[k] in index
    requires Placed(columns, Places(previous, index), sorted)
    requires forall k | 0 <= k < |sorted| :: sorted[k].Some?
    ensures Split(Moved(cells, Places(previous, index)), Logs(Filled(sorted))) && Names(Filled(sorted)) == names
  {
    MovedWithin(cells, previous, names, index);
    var moved := Moved(cells, Places(previous, index));
    forall k: nat | k < |sorted| ensures sorted[k] == Some(Sub(names[k], Project(moved, k))) {
      SortedSlot(cells, columns, previous, names, index, sorted, k);
    }
    FilledSplit(moved, names, sorted);
  }

  lemma FilledSplit(moved: seq<Cell>, names: seq<string>, sorted: seq<Option<Sub>>)
    requires Within(moved, |sorted|) && |names| == |sorted|
    requires forall k: nat | k < |sorted| :: sorted[k] == Some(Sub(names[k], Project(moved, k)))
    ensures Split(moved, Logs(Filled(sorted))) && Names(Filled(sorted)) == names
  {
  }

  /** Each row keeps its type and value. */
  lemma MovedShown(cells: seq<Cell>, previous: seq<string>, names: seq<string>, index: map<string, nat>, i: nat)
    requires names == Sort(previous) && Latest(names, index) && Within(cells, |previous|) && i < |cells|
    requires forall k | 0 <= k < |previous| :: previous[k] in index
    ensures Shown(names, Moved(cells, Places(previous, index))[i]) == Shown(previous, cells[i])
  {
    if cells[i].Cell? { PlacesNames(previous, names, index, cells[i].column); }
  }

  ghost predicate SameShown(previous: seq<string>, cells: seq<Cell>, names: seq<string>, moved: seq<Cell>) {
    |moved| == |cells| && forall i | 0 <= i < |cells| :: Shown(names, moved[i]) == Shown(previous, cells[i])
  }

  /** Sub-columns, discriminators and rows agree. */
  ghost predicate Consistent(names: seq<string>, index: map<string, nat>, columns: seq<Sub>, ds: seq<int>,
                             cells: seq<Cell>) {
    names == Names(columns) && Indexed(names, index) && Split(cells, Logs(columns)) && Coded(cells, ds, NULL)
  }

  /** Index, sub-columns and discriminators for the sorted names. Slots may stay empty; then the
      column cannot be encoded. */
  method Permute(previous: seq<string>, before: map<string, nat>, columns: seq<Sub>, ds: seq<int>,
                 ghost cells: seq<Cell>)
      returns (ok: bool, index: map<string, nat>, columns': seq<Sub>, ds': seq<int>, ghost moved: seq<Cell>)
    requires Consistent(previous, before, columns, ds, cells)
    ensures ok == Distinct(previous)
    ensures ok ==>
      Consistent(Sort(previous), index, columns', ds', moved) && SameShown(previous, cells, Sort(previous), moved)
  {
    columns', ds', moved := columns, ds, cells;
    var names := Sort(previous);
    SortHasAll(previous, before);
    index := Reindex(names, before);
    PlacesKnown(previous, names, index);
    var p, sorted := Rearrange(previous, index, columns);
    CompleteIff(previous, names, index, columns, sorted);
    ok := forall k | 0 <= k < |sorted| :: sorted[k].Some?;
    if !ok { return; }
    columns' := Filled(sorted);
    ds' := Renumber(ds, p, cells);
    moved := Moved(cells, p);
    PermuteConsistent(previous, columns, cells, index, sorted);
  }

  lemma PermuteConsistent(previous: seq<string>, columns: seq<Sub>, cells: seq<Cell>, index: map<string, nat>,
                          sorted: seq<Option<Sub>>)
    requires Split(cells, Logs(columns)) && previous == Names(columns) && Distinct(previous)
    requires Latest(Sort(previous), index) && forall k | 0 <= k < |previous| :: previous[k] in index
    requires Placed(columns, Places(previous, index), sorted) && forall k | 0 <= k < |sorted| :: sorted[k].Some?
    ensures var moved := Moved(cells, Places(previous, index));
      && Split(moved, Logs(Filled(sorted))) && Names(Filled(sorted)) == Sort(previous)
      && Indexed(Sort(previous), index) && SameShown(previous, cells, Sort(previous), moved)
  {
    SortedSplit(cells, columns, previous, Sort(previous), index, sorted);
    LatestIndexed(Sort(previous), index);
    var moved := Moved(cells, Places(previous, index));
    forall i | 0 <= i < |cells| ensures Shown(Sort(previous), moved[i]) == Shown(previous, cells[i]) {
      MovedShown(cells, previous, Sort(previous), index, i);
    }
  }

  /** Sorts names, index, sub-columns and discriminators by one permutation. If that leaves slots
      empty the model stops there. */
  method SortColumns(col: Column) returns (ok: bool)
    requires col.Valid() && !col.flat
    modifies col
    ensures ok == Distinct(old(col.typeNames)) && col.typeNames == Sort(old(col.typeNames))
    ensures col.totalTypes == old(col.totalTypes) && col.maxTypes == old(col.maxTypes)
    ensures ok ==> col.Valid() && SameShown(old(col.typeNames), old(col.cells), col.typeNames, col.cells)
  {
    var previous := col.typeNames;
    SortMembers(previous, SHARED);
    ghost var moved;
    var index, columns, ds;
    ok, index, columns, ds, moved :=
      Permute(previous, col.columnIndexByType, col.columns, col.discriminators, col.cells);
    col.typeNames := Sort(previous);
    if ok {
      col.columnIndexByType, col.columns, col.discriminators, col.cells := index, columns, ds, moved;
    }
  }

  lemma SortHasAll(previous: seq<string>, index: map<string, nat>)
    requires Indexed(previous, index)
    ensures forall t | t in index :: t in Sort(previous)
  {
    forall t | t in index ensures t in Sort(previous) {
      assert previous[index[t]] == t;
      SortMembers(previous, t);
    }
  }

  lemma PlacesKnown(previous: seq<string>, names: seq<string>, index: map<string, nat>)
    requires names == Sort(previous) && Latest(names, index)
    ensures forall k | 0 <= k < |previous| :: previous[k] in index && index[previous[k]] < |previous|
  {
    forall k | 0 <= k < |previous| ensures previous[k] in index && index[previous[k]] < |previous| {
      PlacesNames(previous, names, index, k);
    }
  }

  // ---------------------------------------------------------------- encoding

  function WithoutShared(names: seq<string>): seq<string> {
    if names == [] then [] else (if names[0] == SHARED then [] else [names[0]]) + WithoutShared(names[1..])
  }

  lemma {:induction false} WithoutSharedBag(names: seq<string>)
    ensures multiset(WithoutShared(names)) == multiset(names)[SHARED := 0]
  {
    if names != [] {
      WithoutSharedBag(names[1..]);
      assert names == [names[0]] + names[1..];
    }
  }

  /** Leaving the shared variant out, adding it again and sorting gives the same order. */
  lemma SharedReturns(previous: seq<string>)
    requires SHARED in previous && Distinct(previous)
    ensures Sort(WithoutShared(Sort(previous)) + [SHARED]) == Sort(previous)
    ensures |WithoutShared(Sort(previous))| + 1 == |previous|
  {
    var listed := WithoutShared(Sort(previous));
    WithoutSharedBag(Sort(previous));
    SortPermutes(previous);
    CountOnce(previous, SHARED);
    assert multiset(listed + [SHARED]) == multiset(previous);
    SortCanonical(listed + [SHARED], previous);
    assert |multiset(listed + [SHARED])| == |listed| + 1 && |multiset(previous)| == |previous|;
  }

  function Header(maxTypes: nat, totalTypes: nat, listed: seq<string>): seq<Token> {
    [Number(V1_VERSION), Number(maxTypes), Number(totalTypes)] + Texts(listed) + [Number(VARIANT_VERSION)]
  }

  /** The byte written for a discriminator, and the discriminator read from it. */
  function Code(d: int): nat { if d == NULL then VARIANT_NULL else d % 0x100 }

  function ReadBack(k: nat): int { if k == VARIANT_NULL then NULL else k }

  function Codes(ds: seq<int>): (ks: seq<nat>)
    ensures |ks| == |ds|
  {
    seq(|ds|, i requires 0 <= i < |ds| => Code(ds[i]))
  }

  lemma CodeFaithful(d: nat)
    ensures ReadBack(Code(d)) == d <==> d < VARIANT_NULL
  {
  }

  /** Discriminators survive exactly if all rows lie in the first 255 sub-columns. */
  lemma CodesFaithful(cells: seq<Cell>, ds: seq<int>)
    requires Coded(cells, ds, NULL)
    ensures Renamed(Codes(ds), ReadBack) == ds <==> Within(cells, VARIANT_NULL)
  {
    var back := Renamed(Codes(ds), ReadBack);
    forall i | 0 <= i < |ds| ensures back[i] == ds[i] <==> (cells[i].Cell? ==> cells[i].column < VARIANT_NULL) {
      assert back[i] == ReadBack(Codes(ds)[i]) == ReadBack(Code(ds[i]));
      if cells[i].Cell? { CodeFaithful(ds[i]); }
    }
  }

  method Encode(col: Column) returns (o: Outcome, header: seq<Token>, data: seq<Token>)
    requires col.Valid() && !col.flat
    modifies col
    ensures o == (if Distinct(old(col.typeNames)) then Done else Panicked) && col.typeNames == Sort(old(col.typeNames))
    ensures o.Done? ==> col.Valid() && SameShown(old(col.typeNames), old(col.cells), col.typeNames, col.cells)
    ensures o.Done? ==> header == Header(col.maxTypes, col.totalTypes, WithoutShared(col.typeNames))
    ensures o.Done? ==> data == KeyTokens(0, Codes(col.discriminators)) + ColumnTokens(Logs(col.columns))
    ensures o.Done? ==> Opens(header, col.maxTypes, |col.columns|) && KeysFirst(data, col.cells)
  {
    header, data := [], [];
    var ok := SortColumns(col);
    if !ok { return Panicked, [], []; }
    o := Done;
    var names := WriteNames(col.typeNames);
    header := [Number(V1_VERSION), Number(col.maxTypes), Number(col.totalTypes)] + names + [Number(VARIANT_VERSION)];
    var discs := WriteCodes(col.discriminators);
    var values := WriteColumns(Logs(col.columns));
    data := discs + values;
    EncodedOpens(col.maxTypes, col.totalTypes, WithoutShared(col.typeNames));
    EncodedKeys(col.cells, col.discriminators, values);
  }

  /** The header: version 1, the limit, the types without the shared variant, and at the end version 0 of the
      variant in it. */
  ghost predicate Opens(header: seq<Token>, maxTypes: nat, columns: nat) {
    && |header| >= 4 && header[..3] == [Number(1), Number(maxTypes), Number(columns - 1)]
    && header[|header| - 1] == Number(0)
  }

  /** The front of the data has a byte per row: its sub-column, or 255 for null. */
  ghost predicate KeysFirst(data: seq<Token>, cells: seq<Cell>) {
    |data| >= |cells| && forall i | 0 <= i < |cells| ::
      data[i] == Key(0, if cells[i].Cell? then cells[i].column % 256 else 255)
  }

  lemma EncodedOpens(maxTypes: nat, totalTypes: nat, listed: seq<string>)
    ensures Opens(Header(maxTypes, totalTypes, listed), maxTypes, totalTypes + 1)
  {
  }

  lemma EncodedKeys(cells: seq<Cell>, ds: seq<int>, rest: seq<Token>)
    requires Coded(cells, ds, NULL)
    ensures KeysFirst(KeyTokens(0, Codes(ds)) + rest, cells)
  {
  }

  /** The shared variant is implied and not listed. */
  method WriteNames(names: seq<string>) returns (ts: seq<Token>)
    ensures ts == Texts(WithoutShared(names))
  {
    ts := [];
    ghost var listed := [];
    var i := 0;
    assert names[0..] == names;
    while i < |names|
      invariant 0 <= i <= |names| && listed + WithoutShared(names[i..]) == WithoutShared(names)
      invariant |ts| == |listed| && forall k | 0 <= k < |ts| :: ts[k] == Text(listed[k])
    {
      assert names[i..][1..] == names[i + 1..];
      ghost var before := listed;
      if names[i] != SHARED {
        ts, listed := ts + [Text(names[i])], listed + [names[i]];
      }
      assert listed + WithoutShared(names[i + 1..]) == before + WithoutShared(names[i..]);
      i := i + 1;
    }
  }

  method WriteCodes(ds: seq<int>) returns (ts: seq<Token>)
    ensures ts == KeyTokens(0, Codes(ds))
  {
    ts := [];
    var i := 0;
    while i < |ds|
      invariant 0 <= i == |ts| <= |ds| && forall k | 0 <= k < i :: ts[k] == Key(0, Code(ds[k]))
    {
      var disc := ds[i];
      if disc == NULL { disc := VARIANT_NULL; }
      ts := ts + [Key(0, disc % 0x100)];
      i := i + 1;
    }
  }

  // ---------------------------------------------------------------- decoding

  lemma HeaderParts(header: seq<Token>, maxTypes: nat, totalTypes: nat, listed: seq<string>)
    requires header == Header(maxTypes, totalTypes, listed)
    ensures |header| == |listed| + 4 && header[0] == Number(V1_VERSION) && header[1] == Number(maxTypes)
    ensures header[2] == Number(totalTypes) && At(header, 3, Texts(listed))
    ensures header[|listed| + 3] == Number(VARIANT_VERSION)
  {
  }

  /** Reads the type names, adds the shared variant and sorts again. */
  method DecodeHeader(col: Column, header: seq<Token>, ghost maxTypes: nat, ghost listed: seq<string>)
      returns (ok: bool)
    modifies col
    ensures ok ==> col.typeNames == Names(col.columns) && col.serializationVersion == V1_VERSION
    ensures header == Header(maxTypes, |listed|, listed) && Canonical(col.types, Sort(listed + [SHARED])) ==>
      ok && col.columns == Empties(Sort(listed + [SHARED])) && col.maxTypes == maxTypes && col.totalTypes == |listed|
  {
    ghost var good := header == Header(maxTypes, |listed|, listed) && Canonical(col.types, Sort(listed + [SHARED]));
    if good { HeaderParts(header, maxTypes, |listed|, listed); }
    if |header| < 3 || header[0] != Number(V1_VERSION) { return false; }
    if !header[1].Number? || !header[2].Number? || header[1].n < 0 { return false; }
    col.serializationVersion, col.maxTypes := V1_VERSION, header[1].n;
    var names;
    ok, names := ReadTexts(header, 3, header[2].n, listed);
    if !ok { return; }
    col.typeNames, col.columns, col.columnIndexByType := [], [], map[];
    ok := col.AddColumns(Sort(names + [SHARED]));
    if !ok { return; }
    assert good ==> col.columns == Empties(Sort(listed + [SHARED]));
    col.totalTypes := |names|;
    ok := |header| > |names| + 3 && header[|names| + 3] == Number(VARIANT_VERSION);
  }

  ghost predicate DataFits(data: seq<Token>, rows: nat, written: seq<nat>, values: seq<seq<Stored>>) {
    && data == KeyTokens(0, written) + ColumnTokens(values) && |written| == rows
    && forall c: nat | c < |values| :: |values[c]| == Count(Renamed(written, ReadBack), c)
  }

  /** Each sub-column has as many values as rows name it. */
  ghost predicate Sized(ds: seq<int>, columns: seq<seq<Stored>>) {
    forall c | 0 <= c < |columns| :: |columns[c]| == Count(ds, c)
  }

  method DecodeData(col: Column, data: seq<Token>, rows: nat, ghost written: seq<nat>, ghost values: seq<seq<Stored>>)
      returns (ok: bool)
    modifies col`discriminators, col`offsets, col`columns
    ensures ok ==> |col.discriminators| == rows && Ranked(col.discriminators, col.offsets)
    ensures ok ==> Names(col.columns) == Names(old(col.columns)) && Sized(col.discriminators, Logs(col.columns))
    ensures ok && |written| == rows && At(data, 0, KeyTokens(0, written)) ==>
      col.discriminators == Renamed(written, ReadBack)
    ensures DataFits(data, rows, written, values) && |values| == |old(col.columns)| ==>
      ok && col.discriminators == Renamed(written, ReadBack) && Logs(col.columns) == values
  {
    ghost var good := DataFits(data, rows, written, values) && |values| == |old(col.columns)|;
    if good { AtSplit(data, 0, KeyTokens(0, written), ColumnTokens(values)); }
    var counts;
    ok, col.discriminators, col.offsets, counts := ReadDiscriminators(data, 0, rows, ReadBack, written);
    if !ok { return; }
    var columns := col.columns;
    var wanted := seq(|columns|, c requires 0 <= c < |columns| => Get(counts, c));
    var logs;
    ok, logs := ReadColumns(data, rows, wanted, values);
    if !ok { return; }
    WithLogsParts(columns, logs);
    col.columns := WithLogs(columns, logs);
  }

  // ---------------------------------------------------------------- round trip

  lemma DataReadable(cells: seq<Cell>, ds: seq<int>, columns: seq<seq<Stored>>)
    requires Coded(cells, ds, NULL) && Split(cells, columns) && Within(cells, VARIANT_NULL)
    ensures DataFits(KeyTokens(0, Codes(ds)) + ColumnTokens(columns), |cells|, Codes(ds), columns)
    ensures Renamed(Codes(ds), ReadBack) == ds
  {
    CodesFaithful(cells, ds);
    forall c: nat | c < |columns| ensures |columns[c]| == Count(ds, c) { ProjectCount(cells, ds, NULL, c); }
  }

  lemma CanonicalSorts(types: Types, names: seq<string>)
    requires Canonical(types, names)
    ensures Canonical(types, Sort(names))
  {
    forall k | 0 <= k < |names| ensures types.parse(Sort(names)[k]) == Some(Sort(names)[k]) {
      assert Sort(names)[k] in Sort(names);
      SortMembers(names, Sort(names)[k]);
    }
  }

  /** Decoding what a sorted column was encoded to. */
  method Restore(types: Types, header: seq<Token>, ghost col: Column, ghost previous: seq<string>)
      returns (back: Column)
    requires col.Valid() && !col.flat && col.typeNames == Sort(previous) && Distinct(previous) && SHARED in previous
    requires Canonical(types, previous)
    requires header == Header(col.maxTypes, col.totalTypes, WithoutShared(col.typeNames))
    ensures fresh(back) && back.NullDisc() == NULL && back.columns == Empties(col.typeNames)
  {
    back := new Column(types, false);
    SharedReturns(previous);
    CanonicalSorts(types, previous);
    var ok := DecodeHeader(back, header, col.maxTypes, WithoutShared(col.typeNames));
  }

  lemma {:induction false} CountBelow(ds: seq<int>, i: nat)
    requires i < |ds|
    ensures Count(ds[..i], ds[i]) < Count(ds, ds[i])
  {
    var n := |ds| - 1;
    if i < n {
      CountBelow(ds[..n], i);
      assert ds[..n][..i] == ds[..i];
    }
  }

  /** The row has the type its discriminator names. */
  ghost predicate Typed(names: seq<string>, d: int, shown: RowOut) {
    if d == NULL then shown == None else 0 <= d < |names| && shown.Some? && shown.value.0 == names[d]
  }

  ghost predicate InColumns(ds: seq<int>, n: nat) {
    forall i | 0 <= i < |ds| :: ds[i] == NULL || 0 <= ds[i] < n
  }

  /** The rows of a decoded column; those of the cells, if the discriminators are theirs. */
  method ReadDecoded(back: Column, ghost cells: seq<Cell>, ghost good: bool) returns (shown: seq<RowOut>)
    requires back.NullDisc() == NULL && Ranked(back.discriminators, back.offsets)
    requires Sized(back.discriminators, Logs(back.columns)) && InColumns(back.discriminators, |back.columns|)
    requires good ==> Coded(cells, back.discriminators, NULL) && Split(cells, Logs(back.columns))
    ensures |shown| == |back.discriminators|
    ensures forall i | 0 <= i < |shown| :: Typed(Names(back.columns), back.discriminators[i], shown[i])
    ensures good ==> forall i | 0 <= i < |shown| :: shown[i] == Shown(Names(back.columns), cells[i])
  {
    shown := [];
    var i := 0;
    while i < |back.discriminators|
      invariant 0 <= i == |shown| <= |back.discriminators|
      invariant forall k | 0 <= k < i :: Typed(Names(back.columns), back.discriminators[k], shown[k])
      invariant good ==> forall k | 0 <= k < i :: shown[k] == Shown(Names(back.columns), cells[k])
    {
      var row := ReadOne(back, i, cells, good);
      shown := shown + [row];
      i := i + 1;
    }
  }

  method ReadOne(back: Column, i: nat, ghost cells: seq<Cell>, ghost good: bool) returns (row: RowOut)
    requires i < |back.discriminators| && back.NullDisc() == NULL && Ranked(back.discriminators, back.offsets)
    requires Sized(back.discriminators, Logs(back.columns)) && InColumns(back.discriminators, |back.columns|)
    requires good ==> Coded(cells, back.discriminators, NULL) && Split(cells, Logs(back.columns))
    ensures Typed(Names(back.columns), back.discriminators[i], row)
    ensures good ==> row == Shown(Names(back.columns), cells[i])
  {
    if back.discriminators[i] != NULL {
      CountBelow(back.discriminators, i);
      RowStored(back.columns, back.discriminators, i);
    }
    if good { Lookup(cells, back.discriminators, NULL, Logs(back.columns), back.offsets[i], i); }
    row := back.Row(i);
  }

  lemma RowStored(columns: seq<Sub>, ds: seq<int>, i: nat)
    requires Sized(ds, Logs(columns)) && InColumns(ds, |columns|) && i < |ds| && ds[i] != NULL
    ensures 0 <= ds[i] < |columns| && |columns[ds[i]].values| == Count(ds, ds[i])
  {
    assert |Logs(columns)[ds[i]]| == Count(ds, ds[i]);
  }

  /** Its rows, with the decoder's own discriminators and offsets: all as they were exactly if they lie in
      the first 255 sub-columns. */
  method RestoreRows(back: Column, data: seq<Token>, rows: nat, ghost col: Column)
      returns (read: bool, shown: seq<RowOut>)
    requires col.Valid() && Distinct(col.typeNames)
    requires back.columns == Empties(col.typeNames) && back.NullDisc() == NULL && back != col
    requires data == KeyTokens(0, Codes(col.discriminators)) + ColumnTokens(Logs(col.columns))
    requires rows == |col.cells|
    modifies back
    ensures read && ShowsAll(col.View(), shown) <==> Within(col.cells, VARIANT_NULL)
  {
    ghost var good := Within(col.cells, VARIANT_NULL);
    if good { DataReadable(col.cells, col.discriminators, Logs(col.columns)); }
    assert Names(back.columns) == col.typeNames;
    AtSplit(data, 0, KeyTokens(0, Codes(col.discriminators)), ColumnTokens(Logs(col.columns)));
    shown := [];
    read := DecodeData(back, data, rows, Codes(col.discriminators), Logs(col.columns));
    if read {
      CodesInColumns(col.cells, col.discriminators, |col.columns|);
      shown := ReadDecoded(back, col.cells, good);
      if !good { MisreadShows(col.typeNames, col.cells, col.discriminators, shown); }
    }
  }

  lemma CodesInColumns(cells: seq<Cell>, ds: seq<int>, n: nat)
    requires Coded(cells, ds, NULL) && Within(cells, n)
    ensures InColumns(Renamed(Codes(ds), ReadBack), n)
  {
    var back := Renamed(Codes(ds), ReadBack);
    forall i | 0 <= i < |ds| ensures back[i] == NULL || 0 <= back[i] < n {
      assert back[i] == ReadBack(Codes(ds)[i]) == ReadBack(Code(ds[i]));
      CodeInColumns(ds[i], n);
    }
  }

  lemma CodeInColumns(d: int, n: nat)
    requires d == NULL || 0 <= d < n
    ensures ReadBack(Code(d)) == NULL || 0 <= ReadBack(Code(d)) < n
  {
  }

  /** A row past the first 255 sub-columns comes back as null or under another type. */
  lemma MisreadShows(names: seq<string>, cells: seq<Cell>, ds: seq<int>, shown: seq<RowOut>)
    requires Coded(cells, ds, NULL) && Within(cells, |names|) && Distinct(names) && !Within(cells, VARIANT_NULL)
    requires |shown| == |ds|
    requires forall i | 0 <= i < |ds| :: Typed(names, ReadBack(Code(ds[i])), shown[i])
    ensures exists i :: 0 <= i < |cells| && shown[i] != Shown(names, cells[i])
  {
    var i :| 0 <= i < |cells| && cells[i].Cell? && cells[i].column >= VARIANT_NULL;
    CodeFaithful(ds[i]);
    assert Typed(names, ReadBack(Code(ds[i])), shown[i]);
  }

  const OLDER_START: Table := Table([SHARED], map[SHARED := 0], [])

  /** Every row's type is among the first 255 in the order of the names. */
  ghost predicate FitsByte(t: Table) {
    var sorted := Sort(t.names);
    forall i, k | 0 <= i < |t.cells| && 0 <= k < |sorted| && InPlace(t, t.cells[i], sorted[k]) :: k < VARIANT_NULL
  }

  ghost predicate InPlace(t: Table, cell: Cell, name: string) {
    cell.Cell? && cell.column < |t.names| && t.names[cell.column] == name
  }

  lemma FitsWithin(t: Table, moved: seq<Cell>)
    requires SameShown(t.names, t.cells, Sort(t.names), moved) && Distinct(t.names)
    requires Within(t.cells, |t.names|) && Within(moved, |t.names|)
    ensures FitsByte(t) <==> Within(moved, VARIANT_NULL)
  {
    var sorted := Sort(t.names);
    SortDistinct(t.names);
    SortPermutes(t.names);
    forall i | 0 <= i < |moved| ensures moved[i].Cell? ==> InPlace(t, t.cells[i], sorted[moved[i].column]) {
      assert Shown(sorted, moved[i]) == Shown(t.names, t.cells[i]);
    }
    forall i, k | 0 <= i < |moved| && 0 <= k < |sorted| && InPlace(t, t.cells[i], sorted[k])
      ensures moved[i].Cell? && moved[i].column == k
    {
      assert Shown(sorted, moved[i]) == Shown(t.names, t.cells[i]);
    }
  }

  /** Encoding in the older format and decoding into a new column. It fails exactly if a row finds no
      sub-column, and panics exactly if two sub-columns have one type name; otherwise all rows come back,
      under the types they were routed to, exactly if their types are among the first 255. */
  method RoundTrip(types: Types, rows: seq<RowIn>) returns (o: Outcome, read: bool, shown: seq<RowOut>)
    requires Stable(types) && types.parse(SHARED) == Some(SHARED)
    ensures o.Failed? <==> Routing(types, OLDER_START, rows).None?
    ensures !o.Failed? ==> (o.Panicked? <==> !Distinct(Routing(types, OLDER_START, rows).value.names))
    ensures o.Done? ==>
      var t := Routing(types, OLDER_START, rows).value; read && ShowsAll(t, shown) <==> FitsByte(t)
    ensures o.Done? && FitsByte(Routing(types, OLDER_START, rows).value) ==>
      |shown| == |rows| && forall i | 0 <= i < |rows| :: Kept(types, rows[i], shown[i])
  {
    read, shown := false, [];
    var col := new Column(types, false);
    var ok := AppendAll(col, rows);
    if !ok { return Failed, false, []; }
    RoutingCanonical(types, OLDER_START, rows);
    ghost var t := col.View();
    var names := col.typeNames;
    var header, data;
    o, header, data := Encode(col);
    if !o.Done? { return; }
    SortDistinct(names);
    var back := Restore(types, header, col, names);
    read, shown := RestoreRows(back, data, |col.discriminators|, col);
    FitsWithin(t, col.cells);
    SameRows(t, col.View(), shown);
    if FitsByte(t) { RoutedKept(types, OLDER_START, rows, shown); }
  }

  /** Renumbered rows show the same. */
  lemma SameRows(t: Table, u: Table, shown: seq<RowOut>)
    requires SameShown(t.names, t.cells, u.names, u.cells)
    ensures ShowsAll(t, shown) <==> ShowsAll(u, shown)
  {
  }

  /** What the driver knows of two names of one type: a column asked for as Boolean is one of type Bool. */
  const BOOLEANS: Types := Types(t => Some(if t == "Boolean" then "Bool" else t), (_, v) => Some(v), _ => "")

  /** A row of type Bool and one of type Boolean: the flat format gives both back as Bool, the older one
      panics. */
  method BoolAndBoolean(v: Any) returns (ok: bool, shown: seq<RowOut>, o: Outcome)
    ensures ok && shown == [Some(("Bool", v)), Some(("Bool", v))] && o.Panicked?
  {
    BooleansRouted(v, FLAT_START);
    BooleansRouted(v, OLDER_START);
    ok, shown := RoundTripFlat(BOOLEANS, [("Bool", Some(v)), ("Boolean", Some(v))]);
    BooleansRepeat();
    var older, _, _ := RoundTrip(BOOLEANS, [("Bool", Some(v)), ("Boolean", Some(v))]);
    o := older;
  }

  lemma BooleansRepeat()
    ensures !Distinct([SHARED] + ["Bool", "Bool"])
  {
    var names := [SHARED] + ["Bool", "Bool"];
    assert names[1] == names[2];
  }

  lemma BooleansRouted(v: Any, t: Table)
    requires "Bool" !in t.index && "Boolean" !in t.index
    ensures var n := |t.names|;
      Routing(BOOLEANS, t, [("Bool", Some(v)), ("Boolean", Some(v))]) ==
        Some(Table(t.names + ["Bool", "Bool"], t.index["Bool" := n + 1], t.cells + [Cell(n, v), Cell(n + 1, v)]))
  {
    var n := |t.names|;
    var first, second: seq<RowIn> := [("Bool", Some(v)), ("Boolean", Some(v))], [("Boolean", Some(v))];
    var t1 := Table(t.names + ["Bool"], t.index["Bool" := n], t.cells + [Cell(n, v)]);
    assert first[1..] == second && "Boolean" !in t1.index;
    var t2 := Table(t1.names + ["Bool"], t1.index["Bool" := n + 1], t1.cells + [Cell(n + 1, v)]);
    assert Route(BOOLEANS, t.names, t.index, "Bool", Some(v)) == Routed(t1.names, t1.index, Ok(Cell(n, v)));
    assert Route(BOOLEANS, t1.names, t1.index, "Boolean", Some(v)) == Routed(t2.names, t2.index, Ok(Cell(n + 1, v)));
    assert Routing(BOOLEANS, t1, second) == Routing(BOOLEANS, t2, second[1..]) == Some(t2);
    assert t2.names == t.names + ["Bool", "Bool"] && t2.cells == t.cells + [Cell(n, v), Cell(n + 1, v)];
    assert t2.index == t.index["Bool" := n + 1];
  }
}
