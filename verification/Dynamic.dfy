/** Dynamic columns (lib/column/dynamic.go): sub-columns are added as types turn up, and the flat
    format writes them as they are. */
module Dynamic {
  import opened Base
  import opened Native
  import opened Demux

  const NULL: int := -1
  const FLAT_VERSION: int := 3
  const V1_VERSION: int := 1
  const VARIANT_VERSION: int := 0
  const VARIANT_NULL: nat := 255
  const SHARED: string := "SharedVariant"

  /** What the rest of the driver knows about types: the canonical name of the column a type text
      makes, what a column of a type stores for a value, and the type guessed for a value. */
  datatype Types = Types(parse: string -> Option<string>, leaf: (string, Any) -> Option<Stored>, infer: Any -> string)

  /** A sub-column. */
  datatype Sub = Sub(typ: string, values: seq<Stored>)

  function Logs(columns: seq<Sub>): (r: seq<seq<Stored>>)
    ensures |r| == |columns|
  {
    seq(|columns|, c requires 0 <= c < |columns| => columns[c].values)
  }

  function Names(columns: seq<Sub>): (r: seq<string>)
    ensures |r| == |columns|
  {
    seq(|columns|, c requires 0 <= c < |columns| => columns[c].typ)
  }

  /** A row with its type name, or None for null. */
  function Shown(names: seq<string>, cell: Cell): Option<(string, Stored)> {
    if cell.Null? || cell.column >= |names| then None else Some((names[cell.column], cell.value))
  }

  datatype AppendError = CannotParse | Refused | NoCompatibleType

  // ---------------------------------------------------------------- discriminator widths

  /** The width both the writer and the reader pick. */
  function DiscWidth(totalTypes: nat): (w: nat)
    ensures w <= 3
  {
    if totalTypes <= 0xFF then 0 else if totalTypes <= 0xFFFF then 1 else if totalTypes <= 0xFFFF_FFFF then 2 else 3
  }

  /** Conversion to the unsigned type of a width; 64 bits hold every slice index. */
  function Narrow(width: nat, d: nat): nat {
    if width == 0 then d % 0x100 else if width == 1 then d % 0x1_0000 else if width == 2 then d % 0x1_0000_0000 else d
  }

  /** It holds every type index and the null discriminator, which is the number of types. */
  lemma WidthHoldsNull(totalTypes: nat, d: nat)
    requires d <= totalTypes
    ensures Narrow(DiscWidth(totalTypes), d) == d
  {
  }

  /** It is the narrowest that holds the null discriminator. */
  lemma WidthNarrowest(totalTypes: nat, w: nat)
    requires w <= 3
    ensures w == DiscWidth(totalTypes) <==>
      Narrow(w, totalTypes) == totalTypes && (w > 0 ==> Narrow(w - 1, totalTypes) != totalTypes)
  {
  }

  /** The discriminators as the flat format writes them. */
  function FlatCode(d: int, totalTypes: nat): nat {
    Narrow(DiscWidth(totalTypes), if d < 0 then totalTypes else d)
  }

  function FlatCodes(ds: seq<int>, totalTypes: nat): (ks: seq<nat>)
    ensures |ks| == |ds|
  {
    seq(|ds|, i requires 0 <= i < |ds| => FlatCode(ds[i], totalTypes))
  }

  // ---------------------------------------------------------------- where a row goes

  /** The index knows every type name and names a sub-column of that type. */
  ghost predicate Indexed(names: seq<string>, index: map<string, nat>) {
    && (forall t | t in index :: index[t] < |names| && names[index[t]] == t)
    && (forall k | 0 <= k < |names| :: names[k] in index)
  }

  /** The types and the index after an append, and the row's cell. */
  datatype Routed = Routed(names: seq<string>, index: map<string, nat>, cell: Result<Cell, AppendError>)

  function Take(types: Types, typ: string, c: nat, v: Any): Result<Cell, AppendError> {
    match types.leaf(typ, v)
    case None => Err(Refused)
    case Some(w) => Ok(Cell(c, w))
  }

  function RouteTyped(types: Types, names: seq<string>, index: map<string, nat>, requested: string, v: Any): Routed {
    if requested in index then
      var c := index[requested];
      Routed(names, index, if c < |names| then Take(types, names[c], c, v) else Err(Refused))
    else match types.parse(requested)
      case None => Routed(names, index, Err(CannotParse))
      case Some(typ) => Routed(names + [typ], index[typ := |names|], Take(types, typ, |names|, v))
  }

  /** The first sub-column from `i` on that accepts the value, the shared variant excepted. */
  function FirstFit(types: Types, names: seq<string>, v: Any, i: nat): (r: Option<Cell>)
    decreases |names| - i
  {
    if i >= |names| then None
    else if names[i] != SHARED && types.leaf(names[i], v).Some? then Some(Cell(i, types.leaf(names[i], v).value))
    else FirstFit(types, names, v, i + 1)
  }

  function Route(types: Types, names: seq<string>, index: map<string, nat>, requested: string, v: Option<Any>): Routed {
    if v.None? then Routed(names, index, Ok(Null))
    else if requested != "" then RouteTyped(types, names, index, requested, v.value)
    else match FirstFit(types, names, v.value, 0)
      case Some(cell) => Routed(names, index, Ok(cell))
      case None =>
        if types.infer(v.value) == "" then Routed(names, index, Err(NoCompatibleType))
        else RouteTyped(types, names, index, types.infer(v.value), v.value)
  }

  /** A row and what it shows as: null for null, else what a sub-column of its type keeps of the
      value, of the requested type if there is one. */
  ghost predicate Kept(types: Types, row: (string, Option<Any>), shown: Option<(string, Stored)>) {
    match row.1
    case None => shown == None
    case Some(v) =>
      shown.Some? && types.leaf(shown.value.0, v) == Some(shown.value.1) && Requested(types, row.0, shown.value.0)
  }

  predicate Requested(types: Types, requested: string, typ: string) {
    requested == "" || typ == requested || types.parse(requested) == Some(typ)
  }

  lemma {:induction false} FirstFitKept(types: Types, names: seq<string>, v: Any, i: nat)
    ensures var r := FirstFit(types, names, v, i);
      r.Some? ==>
        r.value.Cell? && r.value.column < |names| && types.leaf(names[r.value.column], v) == Some(r.value.value)
    decreases |names| - i
  {
    if i < |names| { FirstFitKept(types, names, v, i + 1); }
  }

  lemma TypedKept(types: Types, names: seq<string>, index: map<string, nat>, requested: string, v: Any)
    requires Indexed(names, index)
    ensures var q := RouteTyped(types, names, index, requested, v);
      && names <= q.names && Indexed(q.names, q.index)
      && (q.cell.Ok? ==> Kept(types, (requested, Some(v)), Shown(q.names, q.cell.value)))
  {
  }

  lemma RouteKept(types: Types, names: seq<string>, index: map<string, nat>, requested: string, v: Option<Any>)
    requires Indexed(names, index)
    ensures var q := Route(types, names, index, requested, v);
      && names <= q.names && Indexed(q.names, q.index)
      && (q.cell.Ok? ==> Kept(types, (requested, v), Shown(q.names, q.cell.value)))
  {
    if v.Some? {
      FirstFitKept(types, names, v.value, 0);
      TypedKept(types, names, index, requested, v.value);
      TypedKept(types, names, index, types.infer(v.value), v.value);
    }
  }

  // ---------------------------------------------------------------- which sub-column that is

  /** A sub-column that a value without a requested type may go to. */
  predicate Takes(types: Types, names: seq<string>, v: Any, c: nat) {
    c < |names| && names[c] != SHARED && types.leaf(names[c], v).Some?
  }

  ghost predicate Least(types: Types, names: seq<string>, v: Any, c: nat) {
    Takes(types, names, v, c) && forall k: nat | k < c :: !Takes(types, names, v, k)
  }

  ghost predicate NoneTakes(types: Types, names: seq<string>, v: Any) {
    forall c: nat :: !Takes(types, names, v, c)
  }

  lemma {:induction false} FirstFitLeast(types: Types, names: seq<string>, v: Any, i: nat)
    requires forall k: nat | k < i :: !Takes(types, names, v, k)
    ensures match FirstFit(types, names, v, i)
      case None => NoneTakes(types, names, v)
      case Some(cell) =>
        && cell.Cell? && Least(types, names, v, cell.column)
        && types.leaf(names[cell.column], v) == Some(cell.value)
    decreases |names| - i
  {
    if i < |names| && !Takes(types, names, v, i) { FirstFitLeast(types, names, v, i + 1); }
  }

  /** Without a requested type a value goes to the first sub-column that takes it, and nothing else changes;
      if there is none, to one of the guessed type; and if there is no guess, nowhere. */
  lemma RouteUntyped(types: Types, names: seq<string>, index: map<string, nat>, v: Any)
    requires Indexed(names, index)
    ensures var q := Route(types, names, index, "", Some(v));
      && (forall c: nat | Least(types, names, v, c) ::
            q == Routed(names, index, Ok(Cell(c, types.leaf(names[c], v).value))))
      && (forall c: nat | c < |names| && names[c] != SHARED ::
            q.cell.Ok? && q.cell.value.Cell? && q.cell.value.column == c ==> Least(types, names, v, c))
      && (q.cell == Err(NoCompatibleType) <==> NoneTakes(types, names, v) && types.infer(v) == "")
      && (NoneTakes(types, names, v) && types.infer(v) != "" ==>
            q == Route(types, names, index, types.infer(v), Some(v)))
  {
    FirstFitLeast(types, names, v, 0);
    var r := FirstFit(types, names, v, 0);
    forall c: nat | Least(types, names, v, c) ensures r.Some? && r.value.column == c {
      assert Takes(types, names, v, c);
      assert Least(types, names, v, r.value.column);
    }
  }

  /** A requested type that is there adds no sub-column and takes the value or refuses it; another one gets a
      sub-column of its own at the end, if there is such a type. */
  lemma RouteRequested(types: Types, names: seq<string>, index: map<string, nat>, requested: string, v: Any)
    requires Indexed(names, index) && requested != ""
    ensures var q := Route(types, names, index, requested, Some(v));
      if requested in names then
        && q.names == names && q.index == index && requested in index && names[index[requested]] == requested
        && q.cell == match types.leaf(requested, v)
             case None => Err(Refused)
             case Some(w) => Ok(Cell(index[requested], w))
      else match types.parse(requested)
        case None => q == Routed(names, index, Err(CannotParse))
        case Some(typ) =>
          && q.names == names + [typ]
          && q.cell == match types.leaf(typ, v) case None => Err(Refused) case Some(w) => Ok(Cell(|names|, w))
  {
    if requested in names {
      var k :| 0 <= k < |names| && names[k] == requested;
    }
  }

  function FlatHeader(totalTypes: nat, names: seq<string>): seq<Token> {
    [Number(FLAT_VERSION), Number(totalTypes)] + Texts(names)
  }

  function FlatData(ds: seq<int>, totalTypes: nat, columns: seq<seq<Stored>>): seq<Token> {
    KeyTokens(DiscWidth(totalTypes), FlatCodes(ds, totalTypes)) + ColumnTokens(columns)
  }

  /** The front of the data has a key per row: its sub-column, or their number for null. */
  ghost predicate FlatKeys(cells: seq<Cell>, n: nat, data: seq<Token>) {
    |data| >= |cells| && forall i | 0 <= i < |cells| ::
      data[i] == Key(DiscWidth(n), if cells[i].Cell? then cells[i].column else n)
  }

  ghost predicate Lists(types: Types, header: seq<Token>, names: seq<string>) {
    header == FlatHeader(|names|, names) && Canonical(types, names)
  }

  /** Names that make columns of just that name. */
  ghost predicate Canonical(types: Types, names: seq<string>) {
    forall k | 0 <= k < |names| :: types.parse(names[k]) == Some(names[k])
  }

  function Empties(names: seq<string>): (r: seq<Sub>)
    ensures |r| == |names|
  {
    seq(|names|, c requires 0 <= c < |names| => Sub(names[c], []))
  }

  // ---------------------------------------------------------------- decoding flat discriminators

  /** Decoding ends well, with an error, or by indexing past a slice. */
  datatype Outcome = Done | Failed | Panicked

  ghost predicate NonNullRanked(ds: seq<int>, offsets: seq<nat>, nul: int) {
    |offsets| == |ds| && forall i | 0 <= i < |ds| && ds[i] != nul :: offsets[i] == Count(ds[..i], ds[i])
  }

  ghost predicate CountsAre(ds: seq<int>, counts: seq<nat>) {
    forall c | 0 <= c < |counts| :: counts[c] == Count(ds, c)
  }

  lemma FlatStep(ds: seq<int>, offsets: seq<nat>, counts: seq<nat>, nul: int, d: nat)
    requires NonNullRanked(ds, offsets, nul) && CountsAre(ds, counts) && nul == |counts| && d <= nul
    ensures d == nul ==> NonNullRanked(ds + [d], offsets + [0], nul) && CountsAre(ds + [d], counts)
    ensures d < nul ==>
      NonNullRanked(ds + [d], offsets + [counts[d]], nul) && CountsAre(ds + [d], counts[d := counts[d] + 1])
  {
    forall c | 0 <= c < |counts| ensures Count(ds + [d], c) == Count(ds, c) + if c == d then 1 else 0 {}
    var ds' := ds + [d];
    forall i | 0 <= i < |ds| ensures ds'[..i] == ds[..i] {}
    assert ds'[..|ds|] == ds;
  }

  /** One decoded discriminator: the row's offset is the count so far. */
  method Tally(ds: seq<int>, offsets: seq<nat>, counts: seq<nat>, d: nat)
      returns (ds': seq<int>, offsets': seq<nat>, counts': seq<nat>)
    requires NonNullRanked(ds, offsets, |counts|) && CountsAre(ds, counts) && d <= |counts|
    ensures ds' == ds + [d] && |counts'| == |counts|
    ensures NonNullRanked(ds', offsets', |counts|) && CountsAre(ds', counts')
  {
    FlatStep(ds, offsets, counts, |counts|, d);
    ds' := ds + [d];
    if d != |counts| {
      offsets' := offsets + [counts[d]];
      counts' := counts[d := counts[d] + 1];
    } else {
      offsets', counts' := offsets + [0], counts;
    }
  }

  ghost predicate InRange(ks: seq<nat>, totalTypes: nat) {
    forall i | 0 <= i < |ks| :: ks[i] <= totalTypes
  }

  ghost predicate KeysAt(ts: seq<Token>, width: nat, ks: seq<nat>) {
    |ks| <= |ts| && forall i | 0 <= i < |ks| :: ts[i] == Key(width, ks[i])
  }

  /** A discriminator beyond the null one indexes past the counters. */
  method ReadFlat(ts: seq<Token>, rows: nat, totalTypes: nat, ghost written: seq<nat>)
      returns (o: Outcome, ds: seq<int>, offsets: seq<nat>, counts: seq<nat>)
    ensures o.Done? ==>
      |ds| == rows && |counts| == totalTypes && NonNullRanked(ds, offsets, totalTypes) && CountsAre(ds, counts)
    ensures |written| == rows && KeysAt(ts, DiscWidth(totalTypes), written) ==>
      if InRange(written, totalTypes) then o.Done? && ds == written else o.Panicked?
    ensures rows > 0 && ts != [] && ts[0].Key? && ts[0].width != DiscWidth(totalTypes) ==> o.Failed?
  {
    var width := DiscWidth(totalTypes);
    ghost var good := |written| == rows && KeysAt(ts, width, written);
    ds, offsets, counts := [], [], seq(totalTypes, _ => 0);
    var i := 0;
    while i < rows
      invariant 0 <= i == |ds| <= rows && |counts| == totalTypes
      invariant NonNullRanked(ds, offsets, totalTypes) && CountsAre(ds, counts)
      invariant good ==> ds == written[..i] && InRange(written[..i], totalTypes)
      invariant i > 0 ==> ts != [] && ts[0].Key? && ts[0].width == width
    {
      if i >= |ts| || !ts[i].Key? || ts[i].width != width { return Failed, [], [], []; }
      var d := ts[i].k;
      if d > totalTypes { return Panicked, [], [], []; }
      ds, offsets, counts := Tally(ds, offsets, counts, d);
      i := i + 1;
    }
    if good { assert written[..i] == written; }
    o := Done;
  }

  /** The data part holds discriminators within range and sub-columns of the counted lengths. */
  ghost predicate FlatFits(data: seq<Token>, rows: nat, totalTypes: nat, written: seq<nat>, values: seq<seq<Stored>>) {
    && data == KeyTokens(DiscWidth(totalTypes), written) + ColumnTokens(values)
    && |written| == rows && |values| == totalTypes
    && InRange(written, totalTypes)
    && (forall c: nat | c < totalTypes :: |values[c]| == Count(written, c))
  }

  /** A reader that counts `totalTypes` types reads the discriminators of a writer that counts `n`. */
  predicate SameWidth(totalTypes: nat, n: nat, rows: nat) {
    rows == 0 || DiscWidth(totalTypes) == DiscWidth(n)
  }

  /** Reads as many sub-columns as there are, by the counts. */
  method ReadFlatData(data: seq<Token>, rows: nat, totalTypes: nat, n: nat, ghost written: seq<nat>,
                      ghost values: seq<seq<Stored>>)
      returns (o: Outcome, ds: seq<int>, offsets: seq<nat>, logs: seq<seq<Stored>>)
    ensures o.Done? ==> |logs| == n
    ensures FlatFits(data, rows, n, written, values) && n <= totalTypes ==>
      if SameWidth(totalTypes, n, rows) then FlatRead(totalTypes, written, values, o, ds, offsets, logs) else o.Failed?
  {
    ghost var good := FlatFits(data, rows, n, written, values) && n <= totalTypes;
    if good { FlatParts(data, rows, totalTypes, n, written, values); }
    var counts;
    logs := [];
    o, ds, offsets, counts := ReadFlat(data, rows, totalTypes, written);
    if !o.Done? { return; }
    if n > |counts| {
      o := Panicked;
      return;
    }
    if good { assert Counted(values, counts[..n]); }
    var ok;
    ok, logs := ReadColumns(data, rows, counts[..n], values);
    if !ok { o := Failed; }
  }

  ghost predicate FlatRead(totalTypes: nat, written: seq<nat>, values: seq<seq<Stored>>,
                           o: Outcome, ds: seq<int>, offsets: seq<nat>, logs: seq<seq<Stored>>) {
    o.Done? && ds == written && NonNullRanked(ds, offsets, totalTypes) && logs == values
  }

  lemma FlatParts(data: seq<Token>, rows: nat, totalTypes: nat, n: nat, written: seq<nat>, values: seq<seq<Stored>>)
    requires FlatFits(data, rows, n, written, values) && n <= totalTypes
    ensures At(data, rows, ColumnTokens(values)) && InRange(written, totalTypes)
    ensures SameWidth(totalTypes, n, rows) ==> KeysAt(data, DiscWidth(totalTypes), written)
    ensures rows > 0 ==> data != [] && data[0].Key? && data[0].width == DiscWidth(n)
  {
    AtSplit(data, 0, KeyTokens(DiscWidth(n), written), ColumnTokens(values));
    KeysReadable(data, 0, DiscWidth(n), written);
  }

  function WithLogs(columns: seq<Sub>, logs: seq<seq<Stored>>): (r: seq<Sub>)
    requires |logs| == |columns|
    ensures |r| == |columns|
  {
    seq(|columns|, c requires 0 <= c < |columns| => Sub(columns[c].typ, logs[c]))
  }

  lemma WithLogsParts(columns: seq<Sub>, logs: seq<seq<Stored>>)
    requires |logs| == |columns|
    ensures Names(WithLogs(columns, logs)) == Names(columns) && Logs(WithLogs(columns, logs)) == logs
  {
  }

  // ---------------------------------------------------------------- the column

  class Column {
    const types: Types
    const flat: bool
    var totalTypes: nat
    var maxTypes: nat
    var typeNames: seq<string>
    var columnIndexByType: map<string, nat>
    var columns: seq<Sub>
    var discriminators: seq<int>
    var offsets: seq<nat>
    var serializationVersion: int

    ghost var cells: seq<Cell>

    /** Sub-columns, names and index agree. */
    ghost predicate Shape()
      reads this
    {
      && typeNames == Names(columns) && Indexed(typeNames, columnIndexByType)
      && |columns| == totalTypes + (if flat then 0 else 1)
      && (flat || SHARED in typeNames)
    }

    ghost predicate Valid()
      reads this
    {
      Shape() && Split(cells, Logs(columns)) && Coded(cells, discriminators, NULL)
    }

    ghost function View(): Table
      reads this
    {
      Table(typeNames, columnIndexByType, cells)
    }

    /** An old server's column starts with the shared variant, which does not count as a type. */
    constructor (types: Types, flat: bool)
      ensures Valid() && fresh(this) && this.types == types && this.flat == flat && cells == []
      ensures columns == (if flat then [] else [Sub(SHARED, [])]) && typeNames == (if flat then [] else [SHARED])
      ensures columnIndexByType == if flat then map[] else map[SHARED := 0]
    {
      this.types, this.flat := types, flat;
      totalTypes, maxTypes, discriminators, offsets, cells, serializationVersion := 0, 32, [], [], [], 0;
      columns := if flat then [] else [Sub(SHARED, [])];
      typeNames := if flat then [] else [SHARED];
      columnIndexByType := if flat then map[] else map[SHARED := 0];
    }

    method AddColumn(typ: string) returns (c: nat)
      modifies this`typeNames, this`columns, this`columnIndexByType, this`totalTypes
      ensures c == |old(typeNames)|
      ensures typeNames == old(typeNames) + [typ] && columns == old(columns) + [Sub(typ, [])]
      ensures columnIndexByType == old(columnIndexByType)[typ := c] && totalTypes == old(totalTypes) + 1
    {
      typeNames := typeNames + [typ];
      c := |typeNames| - 1;
      columns := columns + [Sub(typ, [])];
      columnIndexByType := columnIndexByType[typ := c];
      totalTypes := totalTypes + 1;
    }

    method AppendNull()
      requires Valid()
      modifies this`discriminators, this`cells
      ensures Valid() && cells == old(cells) + [Null]
    {
      discriminators, cells := discriminators + [NULL], cells + [Null];
    }

    /** The sub-column at `c` takes the value or refuses it. */
    method AppendTo(c: nat, v: Any) returns (ok: bool)
      requires Valid() && c < |columns|
      modifies this`discriminators, this`columns, this`cells
      ensures Valid() && ok == types.leaf(typeNames[c], v).Some?
      ensures !ok ==> unchanged(this)
      ensures ok ==> cells == old(cells) + [Cell(c, types.leaf(typeNames[c], v).value)]
    {
      var w := types.leaf(columns[c].typ, v);
      if w.None? { return false; }
      ghost var logs := Logs(columns);
      columns := columns[c := Sub(columns[c].typ, columns[c].values + [w.value])];
      assert Logs(columns) == logs[c := logs[c] + [w.value]];
      assert Names(columns) == typeNames;
      discriminators, cells := discriminators + [c], cells + [Cell(c, w.value)];
      ok := true;
    }

    /** The appended row is where `q` routes it, or the column is left as `q` says with the error. */
    ghost predicate Follows(before: seq<Cell>, q: Routed, r: Option<AppendError>)
      reads this
    {
      && typeNames == q.names && columnIndexByType == q.index
      && match q.cell
         case Ok(cell) => r == None && cells == before + [cell]
         case Err(e) => r == Some(e) && cells == before
    }

    /** A requested type goes to its sub-column, made on demand. */
    method AppendTyped(requested: string, v: Any) returns (r: Option<AppendError>)
      requires Valid()
      modifies this`typeNames, this`columns, this`columnIndexByType, this`totalTypes, this`discriminators, this`cells
      ensures Valid() && Follows(old(cells), RouteTyped(types, old(typeNames), old(columnIndexByType), requested, v), r)
    {
      var c;
      if requested in columnIndexByType {
        c := columnIndexByType[requested];
      } else {
        if types.parse(requested).None? { return Some(CannotParse); }
        SplitColumn(cells, Logs(columns));
        ghost var logs := Logs(columns);
        c := AddColumn(types.parse(requested).value);
        assert Logs(columns) == logs + [[]];
        assert Names(columns) == typeNames;
      }
      var ok := AppendTo(c, v);
      r := if ok then None else Some(Refused);
    }

    /** Without a requested type the first sub-column that accepts the value takes it, the shared
        variant excepted; else a type is guessed from the value. */
    method AppendRow(requested: string, v: Option<Any>) returns (r: Option<AppendError>)
      requires Valid()
      modifies this`typeNames, this`columns, this`columnIndexByType, this`totalTypes, this`discriminators, this`cells
      ensures Valid() && Follows(old(cells), Route(types, old(typeNames), old(columnIndexByType), requested, v), r)
    {
      if v.None? {
        AppendNull();
        return None;
      }
      if requested != "" {
        r := AppendTyped(requested, v.value);
        return;
      }
      var taken := AppendFirst(v.value);
      if taken { return None; }
      var inferred := types.infer(v.value);
      if inferred == "" { return Some(NoCompatibleType); }
      r := AppendTyped(inferred, v.value);
    }

    method AppendFirst(v: Any) returns (taken: bool)
      requires Valid()
      modifies this`columns, this`discriminators, this`cells
      ensures Valid() && taken == FirstFit(types, typeNames, v, 0).Some?
      ensures taken ==> cells == old(cells) + [FirstFit(types, typeNames, v, 0).value]
      ensures !taken ==> unchanged(this)
    {
      var i := 0;
      while i < |columns|
        invariant 0 <= i <= |columns| && Valid() && unchanged(this)
        invariant FirstFit(types, typeNames, v, 0) == FirstFit(types, typeNames, v, i)
      {
        if typeNames[i] != SHARED {
          taken := AppendTo(i, v);
          if taken { return; }
        }
        i := i + 1;
      }
      taken := false;
    }

    // -------------------------------------------------------------- the flat format

    /** The header lists the types; the data has the discriminators, then the sub-columns. */
    method EncodeFlat() returns (header: seq<Token>, data: seq<Token>)
      requires Valid()
      ensures header == FlatHeader(totalTypes, typeNames)
      ensures data == FlatData(discriminators, totalTypes, Logs(columns))
      ensures header[0] == Number(3) && header[1] == Number(|columns| - if flat then 0 else 1)
      ensures |header| == |columns| + 2 && forall k | 0 <= k < |columns| :: header[2 + k] == Text(columns[k].typ)
      ensures flat ==> FlatKeys(cells, |columns|, data)
    {
      header := [Number(FLAT_VERSION), Number(totalTypes)];
      var i := 0;
      while i < |columns|
        invariant 0 <= i <= |columns| && header == FlatHeader(totalTypes, typeNames[..i])
      {
        assert typeNames[..i + 1] == typeNames[..i] + [columns[i].typ];
        header := header + [Text(columns[i].typ)];
        i := i + 1;
      }
      assert typeNames[..i] == typeNames;
      var discs := WriteFlat();
      var values := WriteColumns(Logs(columns));
      data := discs + values;
      if flat { FlatCoded(cells, discriminators, totalTypes); }
    }

    /** A null is written as the number of types. */
    method WriteFlat() returns (ts: seq<Token>)
      requires Valid()
      ensures ts == KeyTokens(DiscWidth(totalTypes), FlatCodes(discriminators, totalTypes))
    {
      ts := [];
      var width, i := DiscWidth(totalTypes), 0;
      while i < |discriminators|
        invariant 0 <= i == |ts| <= |discriminators|
        invariant forall k | 0 <= k < i :: ts[k] == Key(width, FlatCode(discriminators[k], totalTypes))
      {
        var typeIndex := discriminators[i];
        if typeIndex == NULL { typeIndex := totalTypes; }
        ts := ts + [Key(width, Narrow(width, typeIndex))];
        i := i + 1;
      }
    }

    /** Makes the sub-columns of the listed types, in order. */
    method AddColumns(names: seq<string>) returns (ok: bool)
      modifies this`typeNames, this`columns, this`columnIndexByType, this`totalTypes
      ensures ok <==> forall k | 0 <= k < |names| :: types.parse(names[k]).Some?
      ensures old(typeNames == Names(columns)) ==> typeNames == Names(columns)
      ensures ok && Canonical(types, names) ==>
        typeNames == old(typeNames) + names && totalTypes == old(totalTypes) + |names|
      ensures ok && Canonical(types, names) ==> columns == old(columns) + Empties(names)
    {
      var i := 0;
      while i < |names|
        invariant 0 <= i <= |names| && (old(typeNames == Names(columns)) ==> typeNames == Names(columns))
        invariant forall k | 0 <= k < i :: types.parse(names[k]).Some?
        invariant Canonical(types, names) ==>
          typeNames == old(typeNames) + names[..i] && totalTypes == old(totalTypes) + i
        invariant Canonical(types, names) ==> columns == old(columns) + Empties(names[..i])
      {
        if types.parse(names[i]).None? { return false; }
        ghost var before := Names(columns);
        var c := AddColumn(types.parse(names[i]).value);
        assert names[..i + 1] == names[..i] + [names[i]];
        assert Names(columns) == before + [types.parse(names[i]).value];
        i := i + 1;
      }
      assert names[..i] == names;
      ok := true;
    }

    /** Reads a flat column; the ghost arguments name what was written. The types of an earlier decoding stay
        counted. The column is read exactly if they do not change the width of the discriminators, and then
        exactly the null rows of a used column index past the sub-columns. */
    method DecodeFlat(header: seq<Token>, data: seq<Token>, rows: nat,
                      ghost names: seq<string>, ghost written: seq<nat>, ghost values: seq<seq<Stored>>)
        returns (o: Outcome)
      modifies this
      ensures Lists(types, header, names) ==>
        totalTypes == old(totalTypes) + |names| && typeNames == old(typeNames) + names && Names(columns) == names
      ensures Lists(types, header, names) && FlatFits(data, rows, |names|, written, values) ==>
        if SameWidth(totalTypes, |names|, rows) then o.Done? && Holds(written, values) else o.Failed?
      ensures Lists(types, header, names) && FlatFits(data, rows, |names|, written, values) && o.Done? ==>
        forall i | 0 <= i < rows :: InBounds(i) <==> old(totalTypes) == 0 || written[i] < |names|
    {
      ghost var good := Lists(types, header, names);
      if good { AtSplitHeader(header, names); }
      if |header| < 2 || header[0] != Number(FLAT_VERSION) || !header[1].Number? { return Failed; }
      serializationVersion, columns, columnIndexByType := FLAT_VERSION, [], map[];
      var ok, list := ReadTexts(header, 2, header[1].n, names);
      if !ok { return Failed; }
      ok := AddColumns(list);
      if !ok { return Failed; }
      assert good ==> columns == Empties(names);
      o := DecodeFlatData(data, rows, written, values);
    }

    /** What was written is there. */
    ghost predicate Holds(written: seq<nat>, values: seq<seq<Stored>>)
      reads this
    {
      && serializationVersion == FLAT_VERSION && Logs(columns) == values
      && discriminators == written && NonNullRanked(discriminators, offsets, totalTypes)
    }

    /** Reading row `i` looks no further than the sub-columns. */
    predicate InBounds(i: nat)
      requires i < |discriminators|
      reads this
    {
      discriminators[i] == NullDisc() || 0 <= discriminators[i] < |columns|
    }

    method DecodeFlatData(data: seq<Token>, rows: nat, ghost written: seq<nat>, ghost values: seq<seq<Stored>>)
        returns (o: Outcome)
      requires serializationVersion == FLAT_VERSION
      modifies this`discriminators, this`offsets, this`columns
      ensures Names(columns) == old(Names(columns))
      ensures FlatFits(data, rows, |old(columns)|, written, values) && |old(columns)| <= totalTypes ==>
        if SameWidth(totalTypes, |old(columns)|, rows) then o.Done? && Holds(written, values) else o.Failed?
    {
      var logs;
      o, discriminators, offsets, logs := ReadFlatData(data, rows, totalTypes, |columns|, written, values);
      if !o.Done? { return; }
      WithLogsParts(columns, logs);
      columns := WithLogs(columns, logs);
    }

    // -------------------------------------------------------------- reading rows

    /** The discriminator of a null row, by the format the column was read in. */
    function NullDisc(): int
      reads this
    {
      if serializationVersion == V1_VERSION then NULL else totalTypes
    }

    /** Row `i` with its type name, or None for null. */
    function Row(i: nat): Option<(string, Stored)>
      requires i < |discriminators| == |offsets|
      requires discriminators[i] != NullDisc() ==>
        0 <= discriminators[i] < |columns| && offsets[i] < |columns[discriminators[i]].values|
      reads this
    {
      var d := discriminators[i];
      if d == NullDisc() then None else Some((columns[d].typ, columns[d].values[offsets[i]]))
    }
  }

  // ---------------------------------------------------------------- whole runs

  type RowIn = (string, Option<Any>)
  type RowOut = Option<(string, Stored)>

  /** The types met so far, and where every row went. */
  datatype Table = Table(names: seq<string>, index: map<string, nat>, cells: seq<Cell>)

  /** Routes the rows one after the other; None when one of them finds no sub-column. */
  function Routing(types: Types, t: Table, rows: seq<RowIn>): Option<Table>
    decreases |rows|
  {
    if rows == [] then Some(t)
    else
      var q := Route(types, t.names, t.index, rows[0].0, rows[0].1);
      match q.cell
      case Err(_) => None
      case Ok(cell) => Routing(types, Table(q.names, q.index, t.cells + [cell]), rows[1..])
  }

  /** The rows as they went in, with their types. */
  ghost predicate ShowsAll(t: Table, shown: seq<RowOut>) {
    |shown| == |t.cells| && forall i | 0 <= i < |shown| :: shown[i] == Shown(t.names, t.cells[i])
  }

  ghost predicate AllKept(types: Types, names: seq<string>, rows: seq<RowIn>, cells: seq<Cell>) {
    |cells| == |rows| && forall i | 0 <= i < |rows| :: Kept(types, rows[i], Shown(names, cells[i]))
  }

  /** The type names of a column that makes its sub-columns again. */
  ghost predicate Stable(types: Types) {
    forall t: string :: types.parse(t).Some? ==> types.parse(types.parse(t).value) == types.parse(t)
  }

  method AppendAll(col: Column, rows: seq<RowIn>) returns (ok: bool)
    requires col.Valid()
    modifies col
    ensures col.Valid() && ok == Routing(col.types, old(col.View()), rows).Some?
    ensures ok ==> Some(col.View()) == Routing(col.types, old(col.View()), rows)
  {
    var i := 0;
    assert rows[0..] == rows;
    while i < |rows|
      invariant 0 <= i <= |rows| && col.Valid()
      invariant Routing(col.types, old(col.View()), rows) == Routing(col.types, col.View(), rows[i..])
    {
      assert rows[i..][1..] == rows[i + 1..];
      var r := col.AppendRow(rows[i].0, rows[i].1);
      if r.Some? { return false; }
      i := i + 1;
    }
    ok := true;
  }

  /** Names and index agree, and the cells keep the rows. */
  ghost predicate Routable(types: Types, t: Table, rows: seq<RowIn>) {
    Indexed(t.names, t.index) && Within(t.cells, |t.names|) && AllKept(types, t.names, rows, t.cells)
  }

  lemma RoutableStep(types: Types, t: Table, done: seq<RowIn>, row: RowIn)
    requires Routable(types, t, done)
    ensures var q := Route(types, t.names, t.index, row.0, row.1);
      q.cell.Ok? ==> Routable(types, Table(q.names, q.index, t.cells + [q.cell.value]), done + [row])
  {
    var q := Route(types, t.names, t.index, row.0, row.1);
    RouteKept(types, t.names, t.index, row.0, row.1);
    forall i | 0 <= i < |done| ensures Kept(types, done[i], Shown(q.names, t.cells[i])) {
      assert Shown(q.names, t.cells[i]) == Shown(t.names, t.cells[i]);
    }
  }

  /** Every routed row shows its value as a sub-column of a right type keeps it. */
  lemma {:induction false} RoutingKept(types: Types, t: Table, done: seq<RowIn>, rows: seq<RowIn>)
    requires Routable(types, t, done)
    ensures var end := Routing(types, t, rows); end.Some? ==> Routable(types, end.value, done + rows)
    decreases |rows|
  {
    assert done + [] == done;
    if rows != [] {
      var q := Route(types, t.names, t.index, rows[0].0, rows[0].1);
      if q.cell.Ok? {
        RoutableStep(types, t, done, rows[0]);
        assert (done + [rows[0]]) + rows[1..] == done + rows;
        RoutingKept(types, Table(q.names, q.index, t.cells + [q.cell.value]), done + [rows[0]], rows[1..]);
      }
    }
  }

  lemma RoutedKept(types: Types, start: Table, rows: seq<RowIn>, shown: seq<RowOut>)
    requires Routable(types, start, []) && Routing(types, start, rows).Some?
    requires ShowsAll(Routing(types, start, rows).value, shown)
    ensures |shown| == |rows| && forall i | 0 <= i < |rows| :: Kept(types, rows[i], shown[i])
  {
    RoutingKept(types, start, [], rows);
    assert [] + rows == rows;
  }

  lemma {:induction false} RoutingCanonical(types: Types, t: Table, rows: seq<RowIn>)
    requires Stable(types) && Canonical(types, t.names)
    ensures var end := Routing(types, t, rows); end.Some? ==> Canonical(types, end.value.names)
    decreases |rows|
  {
    if rows != [] {
      var q := Route(types, t.names, t.index, rows[0].0, rows[0].1);
      RouteCanonical(types, t.names, t.index, rows[0].0, rows[0].1);
      if q.cell.Ok? { RoutingCanonical(types, Table(q.names, q.index, t.cells + [q.cell.value]), rows[1..]); }
    }
  }

  lemma RouteCanonical(types: Types, names: seq<string>, index: map<string, nat>, requested: string, v: Option<Any>)
    ensures Stable(types) && Canonical(types, names) ==>
      Canonical(types, Route(types, names, index, requested, v).names)
  {
  }

  /** The rows as the decoded column gives them. */
  method ReadRows(col: Column, ghost cells: seq<Cell>, ghost nul: int) returns (shown: seq<RowOut>)
    requires col.NullDisc() == nul && Coded(cells, col.discriminators, nul) && Split(cells, Logs(col.columns))
    requires NonNullRanked(col.discriminators, col.offsets, nul)
    ensures |shown| == |cells| && forall i | 0 <= i < |cells| :: shown[i] == Shown(Names(col.columns), cells[i])
  {
    shown := [];
    var i := 0;
    while i < |col.discriminators|
      invariant 0 <= i == |shown| <= |cells|
      invariant forall k | 0 <= k < i :: shown[k] == Shown(Names(col.columns), cells[k])
    {
      Lookup(cells, col.discriminators, nul, Logs(col.columns), col.offsets[i], i);
      shown := shown + [col.Row(i)];
      i := i + 1;
    }
  }

  const FLAT_START: Table := Table([], map[], [])

  /** Encoding appended rows in the flat format and decoding them into a new column gives every row back
      under the type it was routed to, for any number of types. */
  method RoundTripFlat(types: Types, rows: seq<RowIn>) returns (ok: bool, shown: seq<RowOut>)
    requires Stable(types)
    ensures ok == Routing(types, FLAT_START, rows).Some?
    ensures ok ==> ShowsAll(Routing(types, FLAT_START, rows).value, shown)
    ensures ok ==> |shown| == |rows| && forall i | 0 <= i < |rows| :: Kept(types, rows[i], shown[i])
  {
    var col := new Column(types, true);
    ok := AppendAll(col, rows);
    if !ok { return false, []; }
    RoutingCanonical(types, FLAT_START, rows);
    var header, data := col.EncodeFlat();
    shown := ReadBackFlat(types, header, data, |col.discriminators|, col);
    RoutedKept(types, FLAT_START, rows, shown);
  }

  /** Decoding what a column was encoded to. */
  method ReadBackFlat(types: Types, header: seq<Token>, data: seq<Token>, rows: nat, ghost col: Column)
      returns (shown: seq<RowOut>)
    requires col.Valid() && col.flat && Canonical(types, col.typeNames) && rows == |col.cells|
    requires header == FlatHeader(col.totalTypes, col.typeNames)
    requires data == FlatData(col.discriminators, col.totalTypes, Logs(col.columns))
    ensures ShowsAll(col.View(), shown)
  {
    ghost var written := FlatCodes(col.discriminators, col.totalTypes);
    FlatReadable(col.cells, col.discriminators, Logs(col.columns));
    var back := new Column(types, true);
    var o := back.DecodeFlat(header, data, rows, col.typeNames, written, Logs(col.columns));
    shown := ReadRows(back, col.cells, col.totalTypes);
  }

  /** What is written codes the same rows, with the number of types for null. */
  lemma FlatCoded(cells: seq<Cell>, ds: seq<int>, totalTypes: nat)
    requires Coded(cells, ds, NULL) && Within(cells, totalTypes)
    ensures Coded(cells, FlatCodes(ds, totalTypes), totalTypes) && InRange(FlatCodes(ds, totalTypes), totalTypes)
  {
    var written := FlatCodes(ds, totalTypes);
    forall i | 0 <= i < |ds| ensures written[i] == if cells[i].Cell? then cells[i].column else totalTypes {
      WidthHoldsNull(totalTypes, if cells[i].Cell? then cells[i].column else totalTypes);
    }
  }

  lemma FlatReadable(cells: seq<Cell>, ds: seq<int>, columns: seq<seq<Stored>>)
    requires Coded(cells, ds, NULL) && Split(cells, columns)
    ensures var written := FlatCodes(ds, |columns|);
      && Coded(cells, written, |columns|) && InRange(written, |columns|)
      && forall c: nat | c < |columns| :: |columns[c]| == Count(written, c)
  {
    FlatCoded(cells, ds, |columns|);
    var written := FlatCodes(ds, |columns|);
    forall c: nat | c < |columns| ensures |columns[c]| == Count(written, c) {
      ProjectCount(cells, written, |columns|, c);
    }
  }

  lemma AtSplitHeader(header: seq<Token>, names: seq<string>)
    requires header == FlatHeader(|names|, names)
    ensures |header| >= 2 && header[0] == Number(FLAT_VERSION)
    ensures header[1] == Number(|names|) && At(header, 2, Texts(names))
  {
  }
}
