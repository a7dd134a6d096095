/** Variant columns (lib/column/variant.go): a one-byte discriminator per row and one
    sub-column per type, with 255 for null. */
module Variant {
  import opened Base
  import opened Native
  import opened Demux

  const NULL_DISCRIMINATOR: nat := 255

  /** Conversion to uint8. */
  function Byte(n: nat): nat {
    n % 256
  }

  /** What the sub-column at a position stores for a value, or None if it refuses it. */
  type Leaf = (nat, Any) -> Option<Stored>

  datatype AppendError = TypeNotPresent | Refused

  /** The type index built by adding the columns in order: the last of equal names wins, as a byte. */
  function TypeIndex(types: seq<string>): (m: map<string, nat>)
    ensures forall t | t in m :: m[t] < 256 && m[t] <= |types| - 1
  {
    if types == [] then map[]
    else
      var n := |types| - 1;
      TypeIndex(types[..n])[types[n] := Byte(n)]
  }

  /** The first column from `c` on that accepts the value. */
  function FirstFit(columns: nat, leaf: Leaf, v: Any, c: nat): (r: Option<nat>)
    requires c <= columns
    ensures r.Some? ==> c <= r.value < columns && leaf(r.value, v).Some?
    decreases columns - c
  {
    if c == columns then None
    else if leaf(c, v).Some? then Some(c)
    else FirstFit(columns, leaf, v, c + 1)
  }

  /** Where a row goes: a requested type decides, else the first column that accepts the value. */
  function Resolve(types: seq<string>, leaf: Leaf, requested: string, v: Option<Any>): Result<Cell, AppendError> {
    if v.None? then Ok(Null)
    else if requested != "" then
      if requested !in TypeIndex(types) then Err(TypeNotPresent)
      else
        var c := TypeIndex(types)[requested];
        if leaf(c, v.value).Some? then Ok(Cell(c, leaf(c, v.value).value)) else Err(Refused)
    else match FirstFit(|types|, leaf, v.value, 0)
      case None => Err(Refused)
      case Some(c) => Ok(Cell(c, leaf(c, v.value).value))
  }

  // ---------------------------------------------------------------- which sub-column that is

  lemma {:induction false} FirstFitLeast(columns: nat, leaf: Leaf, v: Any, i: nat)
    requires i <= columns && forall k: nat | k < i :: leaf(k, v).None?
    ensures match FirstFit(columns, leaf, v, i)
      case None => forall k: nat | k < columns :: leaf(k, v).None?
      case Some(c) => c < columns && leaf(c, v).Some? && forall k: nat | k < c :: leaf(k, v).None?
    decreases columns - i
  {
    if i < columns && leaf(i, v).None? { FirstFitLeast(columns, leaf, v, i + 1); }
  }

  /** Without a requested type a value goes to the first sub-column that takes it; it is refused exactly if
      none does. */
  lemma ResolveUntyped(types: seq<string>, leaf: Leaf, v: Any, c: nat)
    ensures var r := Resolve(types, leaf, "", Some(v));
      && (r.Err? <==> forall k: nat | k < |types| :: leaf(k, v).None?) && (r.Err? ==> r.error == Refused)
      && (r.Ok? && r.value.Cell? && r.value.column == c <==>
          c < |types| && leaf(c, v).Some? && forall k: nat | k < c :: leaf(k, v).None?)
      && (r.Ok? ==> r.value.Cell? && leaf(r.value.column, v) == Some(r.value.value))
  {
    FirstFitLeast(|types|, leaf, v, 0);
  }

  ghost predicate LastType(types: seq<string>, p: nat) {
    p < |types| && forall k | p < k < |types| :: types[k] != types[p]
  }

  lemma {:induction false} IndexesLast(types: seq<string>, p: nat)
    requires LastType(types, p)
    ensures types[p] in TypeIndex(types) && TypeIndex(types)[types[p]] == Byte(p)
  {
    var n := |types| - 1;
    if p < n {
      assert types[..n][p] == types[p] && forall k | p < k < n :: types[..n][k] == types[k];
      IndexesLast(types[..n], p);
    }
  }

  lemma {:induction false} IndexesOnly(types: seq<string>, t: string)
    ensures t in TypeIndex(types) <==> t in types
  {
    if types != [] {
      var n := |types| - 1;
      IndexesOnly(types[..n], t);
      assert types == types[..n] + [types[n]];
    }
  }

  /** A requested type decides: its last place, as a byte. */
  lemma ResolveRequested(types: seq<string>, leaf: Leaf, requested: string, v: Any, p: nat)
    requires requested != ""
    ensures var r := Resolve(types, leaf, requested, Some(v));
      && (r == Err(TypeNotPresent) <==> requested !in types)
      && (LastType(types, p) && types[p] == requested ==>
          r == match leaf(p % 256, v) case None => Err(Refused) case Some(w) => Ok(Cell(p % 256, w)))
  {
    IndexesOnly(types, requested);
    if LastType(types, p) && types[p] == requested { IndexesLast(types, p); }
  }

  function Code(cell: Cell): nat {
    if cell.Null? then NULL_DISCRIMINATOR else Byte(cell.column)
  }

  ghost predicate CodesOf(cells: seq<Cell>, ds: seq<int>) {
    |ds| == |cells| && forall i | 0 <= i < |cells| :: ds[i] == Code(cells[i])
  }

  class Column {
    const types: seq<string>
    const leaf: Leaf
    var discriminators: seq<int>   // bytes
    var offsets: seq<nat>
    var columns: seq<seq<Stored>>

    ghost var cells: seq<Cell>

    ghost predicate Valid()
      reads this
    {
      |columns| == |types| && Split(cells, columns) && CodesOf(cells, discriminators)
    }

    constructor (types: seq<string>, leaf: Leaf)
      ensures Valid() && this.types == types && this.leaf == leaf && cells == [] && fresh(this)
    {
      this.types, this.leaf := types, leaf;
      discriminators, offsets, columns, cells := [], [], seq(|types|, _ => []), [];
    }

    method AppendNull()
      requires Valid()
      modifies this`discriminators, this`cells
      ensures Valid() && cells == old(cells) + [Null]
    {
      discriminators, cells := discriminators + [NULL_DISCRIMINATOR], cells + [Null];
    }

    method AppendTo(c: nat, w: Stored, disc: nat)
      requires Valid() && c < |columns| && disc == Byte(c)
      modifies this`discriminators, this`columns, this`cells
      ensures Valid() && cells == old(cells) + [Cell(c, w)]
    {
      columns := columns[c := columns[c] + [w]];
      discriminators, cells := discriminators + [disc], cells + [Cell(c, w)];
    }

    method AppendRow(requested: string, v: Option<Any>) returns (r: Option<AppendError>)
      requires Valid()
      modifies this`discriminators, this`columns, this`cells
      ensures Valid()
      ensures match Resolve(types, leaf, requested, v)
        case Ok(cell) => r == None && cells == old(cells) + [cell]
        case Err(e) => r == Some(e) && unchanged(this)
    {
      if v.None? {
        AppendNull();
        return None;
      }
      if requested != "" {
        if requested !in TypeIndex(types) { return Some(TypeNotPresent); }
        var c := TypeIndex(types)[requested];
        var w := leaf(c, v.value);
        if w.None? { return Some(Refused); }
        AppendTo(c, w.value, c);
        return None;
      }
      var c := 0;
      while c < |types|
        invariant 0 <= c <= |types|
        invariant FirstFit(|types|, leaf, v.value, 0) == FirstFit(|types|, leaf, v.value, c)
      {
        var w := leaf(c, v.value);
        if w.Some? {
          AppendTo(c, w.value, Byte(c));
          return None;
        }
        c := c + 1;
      }
      r := Some(Refused);
    }

    method Encode() returns (ts: seq<Token>)
      ensures ts == Stream(Raw(discriminators), columns)
    {
      ts := KeyTokens(0, Raw(discriminators));
      var values := WriteColumns(columns);
      ts := ts + values;
    }

    /** Reads the discriminators, then as many rows of each sub-column as its byte was counted. The ghost
        arguments name what was written; it is read back exactly if no byte counts more rows than a
        sub-column has. */
    method Decode(ts: seq<Token>, rows: nat, ghost written: seq<nat>, ghost values: seq<seq<Stored>>) returns (ok: bool)
      modifies this`discriminators, this`offsets, this`columns
      ensures ok ==> |discriminators| == rows && Ranked(discriminators, offsets)
      ensures ok ==> |columns| == |types| && CountsFit(columns, discriminators)
      ensures Carries(ts, written, values) && |written| == rows && |values| == |types| ==>
        (ok <==> CountsFit(values, written)) && (ok ==> discriminators == written && columns == values)
    {
      ghost var good := Carries(ts, written, values) && |written| == rows && |values| == |types|;
      if good { AtSplit(ts, 0, KeyTokens(0, written), ColumnTokens(values)); }
      var counts;
      ok, discriminators, offsets, counts := ReadDiscriminators(ts, 0, rows, (k: nat) => k as int, written);
      if !ok { return; }
      assert good ==> discriminators == written;
      var wanted := Wanted(counts, |types|);
      if good {
        WantedFits(values, written, wanted);
        ValuesBehind(written, values);
      }
      ok, columns := ReadColumns(ts, rows, wanted, values);
    }

    /** Row `i` with its type name, or None for null. */
    function Row(i: nat): Option<(string, Stored)>
      requires i < |discriminators| == |offsets| && |columns| == |types|
      requires discriminators[i] != NULL_DISCRIMINATOR ==>
        0 <= discriminators[i] < |columns| && offsets[i] < |columns[discriminators[i]]|
      reads this
    {
      var d := discriminators[i];
      if d == NULL_DISCRIMINATOR then None else Some((types[d], columns[d][offsets[i]]))
    }
  }

  /** The discriminator slice as bytes. */
  function Raw(ds: seq<int>): (ks: seq<nat>)
    ensures |ks| == |ds|
  {
    seq(|ds|, i requires 0 <= i < |ds| => ds[i] % 256)
  }

  function Stream(ks: seq<nat>, columns: seq<seq<Stored>>): seq<Token> {
    KeyTokens(0, ks) + ColumnTokens(columns)
  }

  /** Each sub-column has as many rows as its byte occurs. */
  ghost predicate CountsFit(values: seq<seq<Stored>>, ds: seq<int>) {
    forall c: nat | c < |values| :: |values[c]| == Count(ds, Byte(c))
  }

  /** The stream is that of a column none of whose sub-columns has more rows than its byte occurs. */
  ghost predicate Carries(ts: seq<Token>, ks: seq<nat>, values: seq<seq<Stored>>) {
    ts == Stream(ks, values) && forall c: nat | c < |values| :: |values[c]| <= Count(ks, Byte(c))
  }

  function Wanted(counts: map<int, nat>, n: nat): (r: seq<nat>)
    ensures |r| == n
  {
    seq(n, c requires 0 <= c < n => Get(counts, Byte(c)))
  }

  /** Asked for at least what there is, the readers get it all exactly if they ask for no more. */
  lemma WantedFits(values: seq<seq<Stored>>, ds: seq<int>, wanted: seq<nat>)
    requires |wanted| == |values| && forall c: nat | c < |wanted| :: |values[c]| <= wanted[c] == Count(ds, Byte(c))
    ensures Total(wanted) <= Total(Lengths(values)) <==> CountsFit(values, ds)
    ensures CountsFit(values, ds) ==> Counted(values, wanted)
  {
    TotalTight(Lengths(values), wanted);
    if CountsFit(values, ds) { assert Lengths(values) == wanted; }
  }

  lemma ValuesBehind(ks: seq<nat>, values: seq<seq<Stored>>)
    ensures var ts := Stream(ks, values); |ts| == |ks| + Total(Lengths(values)) && AllValues(ts, |ks|)
  {
    ColumnTokensLength(values);
  }

  // ---------------------------------------------------------------- which rows are read back

  /** Only rows of sub-column `c` have its byte. */
  ghost predicate Only(cells: seq<Cell>, c: nat) {
    forall i | 0 <= i < |cells| :: Code(cells[i]) == Byte(c) ==> In(cells[i], c)
  }

  predicate In(cell: Cell, c: nat) {
    cell.Cell? && cell.column == c
  }

  /** A sub-column has at most as many rows as its byte occurs, and as many exactly if the byte is its own. */
  lemma {:induction false} CountIff(cells: seq<Cell>, ds: seq<int>, c: nat)
    requires CodesOf(cells, ds)
    ensures |Project(cells, c)| <= Count(ds, Byte(c))
    ensures |Project(cells, c)| == Count(ds, Byte(c)) <==> Only(cells, c)
  {
    if cells != [] {
      var n := |cells| - 1;
      CountIff(cells[..n], ds[..n], c);
      OnlySnoc(cells, c);
    }
  }

  lemma OnlySnoc(cells: seq<Cell>, c: nat)
    requires cells != []
    ensures var n := |cells| - 1;
      Only(cells, c) <==> Only(cells[..n], c) && (Code(cells[n]) == Byte(c) ==> In(cells[n], c))
  {
    var n := |cells| - 1;
    if Only(cells, c) {
      forall i | 0 <= i < n ensures Code(cells[..n][i]) == Byte(c) ==> In(cells[..n][i], c) {
        assert cells[..n][i] == cells[i];
      }
    }
    if Only(cells[..n], c) && (Code(cells[n]) == Byte(c) ==> In(cells[n], c)) {
      forall i | 0 <= i < |cells| ensures Code(cells[i]) == Byte(c) ==> In(cells[i], c) {
        if i < n { assert cells[..n][i] == cells[i]; }
      }
    }
  }

  /** No other of `n` sub-columns has the byte of the row. */
  predicate Readable(n: nat, cell: Cell) {
    if cell.Null? then n <= NULL_DISCRIMINATOR else cell.column < 256 && n <= cell.column + 256
  }

  ghost predicate AllReadable(n: nat, cells: seq<Cell>) {
    forall i | 0 <= i < |cells| :: Readable(n, cells[i])
  }

  ghost predicate OnlyIn(n: nat, cell: Cell) {
    forall c: nat | c < n :: Code(cell) == Byte(c) ==> In(cell, c)
  }

  lemma ReadableIff(n: nat, cell: Cell)
    requires cell.Cell? ==> cell.column < n
    ensures Readable(n, cell) <==> OnlyIn(n, cell)
  {
    if OnlyIn(n, cell) {
      if cell.Null? {
        assert NULL_DISCRIMINATOR < n ==> Code(cell) == Byte(NULL_DISCRIMINATOR);
      } else {
        assert Code(cell) == Byte(cell.column % 256) && Code(cell) == Byte(cell.column + 256);
      }
    }
  }

  lemma ReadableCounts(cells: seq<Cell>, ds: seq<int>, columns: seq<seq<Stored>>)
    requires CodesOf(cells, ds) && Split(cells, columns)
    ensures forall c: nat | c < |columns| :: |columns[c]| <= Count(ds, Byte(c))
    ensures CountsFit(columns, ds) <==> AllReadable(|columns|, cells)
  {
    forall c: nat | c < |columns|
      ensures |columns[c]| <= Count(ds, Byte(c)) && (|columns[c]| == Count(ds, Byte(c)) <==> Only(cells, c))
    {
      CountIff(cells, ds, c);
    }
    OnlyReadable(cells, |columns|);
  }

  lemma OnlyReadable(cells: seq<Cell>, n: nat)
    requires Within(cells, n)
    ensures AllReadable(n, cells) <==> forall c: nat | c < n :: Only(cells, c)
  {
    forall i | 0 <= i < |cells| ensures Readable(n, cells[i]) <==> OnlyIn(n, cells[i]) { ReadableIff(n, cells[i]); }
    if AllReadable(n, cells) {
      forall c: nat | c < n ensures Only(cells, c) {
        forall i | 0 <= i < |cells| ensures Code(cells[i]) == Byte(c) ==> In(cells[i], c) {
          assert OnlyIn(n, cells[i]);
        }
      }
    }
    if forall c: nat | c < n :: Only(cells, c) {
      forall i | 0 <= i < |cells| ensures OnlyIn(n, cells[i]) {
        forall c: nat | c < n ensures Code(cells[i]) == Byte(c) ==> In(cells[i], c) { assert Only(cells, c); }
      }
    }
  }

  // ---------------------------------------------------------------- round trip

  /** What a resolved row should read back as, */
  function Shown(types: seq<string>, cell: Cell): Option<(string, Stored)> {
    if cell.Null? || cell.column >= |types| then None else Some((types[cell.column], cell.value))
  }

  /** and what it does: the byte of the 256th sub-column is that of null. */
  function ReadsAs(types: seq<string>, cell: Cell): Option<(string, Stored)> {
    if cell.Cell? && cell.column == NULL_DISCRIMINATOR then None else Shown(types, cell)
  }

  function Nulled(cells: seq<Cell>): (r: seq<Cell>)
    ensures |r| == |cells|
  {
    seq(|cells|, i requires 0 <= i < |cells| => if In(cells[i], NULL_DISCRIMINATOR) then Null else cells[i])
  }

  lemma {:induction false} NulledProject(cells: seq<Cell>, c: nat)
    requires c != NULL_DISCRIMINATOR
    ensures Project(Nulled(cells), c) == Project(cells, c)
  {
    if cells != [] {
      var n := |cells| - 1;
      NulledProject(cells[..n], c);
      assert Nulled(cells)[..n] == Nulled(cells[..n]);
    }
  }

  lemma NulledCoded(cells: seq<Cell>, ds: seq<int>, n: nat)
    requires CodesOf(cells, ds) && AllReadable(n, cells)
    ensures Coded(Nulled(cells), ds, NULL_DISCRIMINATOR)
  {
    forall i | 0 <= i < |cells| ensures ds[i] == Code(cells[i]) && Readable(n, cells[i]) {}
  }

  /** A row that is not read as null finds its value. */
  lemma Found(cells: seq<Cell>, ds: seq<int>, columns: seq<seq<Stored>>, offset: nat, i: nat)
    requires CodesOf(cells, ds) && Split(cells, columns) && AllReadable(|columns|, cells) && i < |cells|
    requires offset == Count(ds[..i], ds[i]) && ds[i] != NULL_DISCRIMINATOR
    ensures cells[i].Cell? && ds[i] == cells[i].column < |columns|
    ensures offset < |columns[ds[i]]| && columns[ds[i]][offset] == cells[i].value
  {
    assert Readable(|columns|, cells[i]);
    NulledCoded(cells, ds, |columns|);
    ProjectAt(Nulled(cells), ds, NULL_DISCRIMINATOR, i);
    NulledProject(cells, cells[i].column);
  }

  datatype Arg = Arg(requested: string, v: Option<Any>)

  ghost predicate AllResolve(types: seq<string>, leaf: Leaf, args: seq<Arg>) {
    forall i | 0 <= i < |args| :: Resolve(types, leaf, args[i].requested, args[i].v).Ok?
  }

  /** The cells that the arguments resolve to. */
  ghost function Cells(types: seq<string>, leaf: Leaf, args: seq<Arg>): (cells: seq<Cell>)
    requires AllResolve(types, leaf, args)
    ensures |cells| == |args|
  {
    seq(|args|, i requires 0 <= i < |args| => Resolve(types, leaf, args[i].requested, args[i].v).value)
  }

  ghost predicate Resolved(types: seq<string>, leaf: Leaf, args: seq<Arg>, cells: seq<Cell>) {
    && |cells| == |args|
    && forall i | 0 <= i < |args| :: Resolve(types, leaf, args[i].requested, args[i].v) == Ok(cells[i])
  }

  method AppendAll(c: Column, args: seq<Arg>) returns (ok: bool)
    requires c.Valid() && c.cells == []
    modifies c
    ensures c.Valid() && (ok <==> AllResolve(c.types, c.leaf, args))
    ensures ok ==> c.cells == Cells(c.types, c.leaf, args)
  {
    var i := 0;
    while i < |args|
      invariant 0 <= i <= |args| && c.Valid() && Resolved(c.types, c.leaf, args[..i], c.cells)
    {
      var r := c.AppendRow(args[i].requested, args[i].v);
      if r.Some? {
        assert !Resolve(c.types, c.leaf, args[i].requested, args[i].v).Ok?;
        return false;
      }
      i := i + 1;
    }
    assert args[..i] == args;
    ok := true;
  }

  ghost predicate AllShown(types: seq<string>, cells: seq<Cell>, got: seq<Option<(string, Stored)>>) {
    |got| == |cells| && forall i | 0 <= i < |got| :: got[i] == Shown(types, cells[i])
  }

  /** A row comes back exactly if its byte is neither null's nor that of another sub-column; a null, if
      there are at most 255 of them. */
  predicate Survives(n: nat, cell: Cell) {
    Readable(n, cell) && !In(cell, NULL_DISCRIMINATOR)
  }

  /** The index names a position of the type, as a byte. */
  lemma {:induction false} Indexes(types: seq<string>, t: string) returns (p: nat)
    requires t in TypeIndex(types)
    ensures p < |types| && types[p] == t && TypeIndex(types)[t] == Byte(p)
  {
    var n := |types| - 1;
    if t == types[n] { p := n; } else { p := Indexes(types[..n], t); }
  }

  /** A row that survives lies in a sub-column of the type that was requested: the index can point past a
      wrap only to a row that does not survive. */
  lemma RequestedKept(types: seq<string>, leaf: Leaf, requested: string, v: Any)
    requires requested != "" && Resolve(types, leaf, requested, Some(v)).Ok?
    ensures var cell := Resolve(types, leaf, requested, Some(v)).value;
      cell.Cell? && cell.column < |types| && (Survives(|types|, cell) ==> types[cell.column] == requested)
  {
    var p := Indexes(types, requested);
  }

  /** A null came back as null, and a value as a sub-column keeps it, under the name of that sub-column, which
      is the requested one if there is one. */
  ghost predicate Comes(types: seq<string>, leaf: Leaf, arg: Arg, row: Option<(string, Stored)>) {
    match arg.v
    case None => row == None
    case Some(v) =>
      && row.Some? && (arg.requested != "" ==> row.value.0 == arg.requested)
      && exists c: nat :: leaf(c, v) == Some(row.value.1) && c < |types| && types[c] == row.value.0
  }

  lemma AllCome(types: seq<string>, leaf: Leaf, args: seq<Arg>, got: seq<Option<(string, Stored)>>)
    requires AllResolve(types, leaf, args) && |got| == |args|
    requires forall i | 0 <= i < |got| :: got[i] == ReadsAs(types, Cells(types, leaf, args)[i])
    ensures forall i | 0 <= i < |got| ::
      Survives(|types|, Cells(types, leaf, args)[i]) ==> Comes(types, leaf, args[i], got[i])
  {
    forall i | 0 <= i < |got| && Survives(|types|, Cells(types, leaf, args)[i])
      ensures Comes(types, leaf, args[i], got[i])
    {
      assert Resolve(types, leaf, args[i].requested, args[i].v).Ok?;
      var cell := Cells(types, leaf, args)[i];
      assert got[i] == ReadsAs(types, cell);
      if args[i].v.Some? {
        if args[i].requested != "" { RequestedKept(types, leaf, args[i].requested, args[i].v.value); }
        assert leaf(cell.column, args[i].v.value) == Some(cell.value);
      }
    }
  }

  /** Append, encode, decode into a fresh column, read. */
  method RoundTrip(types: seq<string>, leaf: Leaf, args: seq<Arg>)
      returns (taken: bool, read: bool, got: seq<Option<(string, Stored)>>)
    ensures taken <==> AllResolve(types, leaf, args)
    ensures taken ==> (read <==> AllReadable(|types|, Cells(types, leaf, args)))
    ensures taken && read ==> |got| == |args| && forall i | 0 <= i < |args| ::
      got[i] == ReadsAs(types, Cells(types, leaf, args)[i])
    ensures taken && read ==> forall i | 0 <= i < |args| ::
      Survives(|types|, Cells(types, leaf, args)[i]) ==> Comes(types, leaf, args[i], got[i])
    ensures taken ==> var cells := Cells(types, leaf, args);
      read && AllShown(types, cells, got) <==> forall i | 0 <= i < |cells| :: Survives(|types|, cells[i])
  {
    read, got := false, [];
    var c := new Column(types, leaf);
    taken := AppendAll(c, args);
    if !taken { return; }
    var ts := c.Encode();
    read, got := ReadBack(types, leaf, ts, c.cells, c.discriminators, c.columns);
    if read {
      ShownIff(types, c.cells, got);
      AllCome(types, leaf, args, got);
    }
  }

  lemma ShownIff(types: seq<string>, cells: seq<Cell>, got: seq<Option<(string, Stored)>>)
    requires Within(cells, |types|) && AllReadable(|types|, cells)
    requires |got| == |cells| && forall i | 0 <= i < |got| :: got[i] == ReadsAs(types, cells[i])
    ensures AllShown(types, cells, got) <==> forall i | 0 <= i < |cells| :: Survives(|types|, cells[i])
  {
    forall i | 0 <= i < |cells| ensures got[i] == Shown(types, cells[i]) <==> Survives(|types|, cells[i]) {
      assert Readable(|types|, cells[i]);
    }
  }

  /** Decodes what a column with the given cells was encoded to, and reads every row. */
  method ReadBack(types: seq<string>, leaf: Leaf, ts: seq<Token>, ghost cells: seq<Cell>, ds: seq<int>,
                  ghost columns: seq<seq<Stored>>)
      returns (read: bool, got: seq<Option<(string, Stored)>>)
    requires CodesOf(cells, ds) && Split(cells, columns) && |columns| == |types| && ts == Stream(Raw(ds), columns)
    ensures read <==> AllReadable(|types|, cells)
    ensures read ==> |got| == |cells| && forall i | 0 <= i < |got| :: got[i] == ReadsAs(types, cells[i])
  {
    got := [];
    var d := new Column(types, leaf);
    RawSame(cells, ds);
    ReadableCounts(cells, ds, columns);
    read := d.Decode(ts, |ds|, Raw(ds), columns);
    if read { got := ReadRows(d, cells); }
  }

  lemma RawSame(cells: seq<Cell>, ds: seq<int>)
    requires CodesOf(cells, ds)
    ensures Raw(ds) == ds
  {
    forall i | 0 <= i < |ds| ensures 0 <= ds[i] < 256 { assert ds[i] == Code(cells[i]); }
  }

  method ReadRows(d: Column, ghost cells: seq<Cell>) returns (got: seq<Option<(string, Stored)>>)
    requires |d.columns| == |d.types| && Split(cells, d.columns) && CodesOf(cells, d.discriminators)
    requires AllReadable(|d.types|, cells) && Ranked(d.discriminators, d.offsets)
    ensures |got| == |cells| && forall i | 0 <= i < |cells| :: got[i] == ReadsAs(d.types, cells[i])
  {
    got := [];
    var i := 0;
    while i < |d.discriminators|
      invariant 0 <= i <= |cells| && |got| == i
      invariant forall j | 0 <= j < i :: got[j] == ReadsAs(d.types, cells[j])
    {
      var row := ReadRow(d, i, cells);
      got := got + [row];
      i := i + 1;
    }
  }

  method ReadRow(d: Column, i: nat, ghost cells: seq<Cell>) returns (row: Option<(string, Stored)>)
    requires |d.columns| == |d.types| && Split(cells, d.columns) && CodesOf(cells, d.discriminators)
    requires AllReadable(|d.types|, cells) && Ranked(d.discriminators, d.offsets) && i < |cells|
    ensures row == ReadsAs(d.types, cells[i])
  {
    assert Readable(|d.types|, cells[i]) && d.discriminators[i] == Code(cells[i]);
    if d.discriminators[i] != NULL_DISCRIMINATOR { Found(cells, d.discriminators, d.columns, d.offsets[i], i); }
    row := d.Row(i);
  }

  /** Up to 255 types every row survives. */
  lemma FewTypes(n: nat, cell: Cell)
    requires n <= NULL_DISCRIMINATOR && (cell.Cell? ==> cell.column < n)
    ensures Survives(n, cell)
  {
  }

  /** A leaf that takes every value, but only in the 256th column. */
  function LeafAt255(w: Stored): Leaf {
    (c: nat, v: Any) => if c == NULL_DISCRIMINATOR then Some(w) else None
  }

  lemma {:induction false} OnlyFit(columns: nat, w: Stored, v: Any, c: nat)
    requires c <= NULL_DISCRIMINATOR < columns
    ensures FirstFit(columns, LeafAt255(w), v, c) == Some(NULL_DISCRIMINATOR)
    decreases NULL_DISCRIMINATOR - c
  {
    if c < NULL_DISCRIMINATOR { OnlyFit(columns, w, v, c + 1); }
  }

  /** A value of the 256th type is written under the null discriminator: with up to 511 types it is read
      back as null, with more the column cannot be read. */
  method Overfull(types: seq<string>, w: Stored) returns (taken: bool, read: bool, got: seq<Option<(string, Stored)>>)
    requires |types| > NULL_DISCRIMINATOR
    ensures Resolve(types, LeafAt255(w), "", Some(0)) == Ok(Cell(NULL_DISCRIMINATOR, w))
    ensures taken && (read <==> |types| <= 511) && (read ==> got == [None])
  {
    OnlyFit(|types|, w, 0, 0);
    var args := [Arg("", Some(0))];
    assert args[0] == Arg("", Some(0));
    taken, read, got := RoundTrip(types, LeafAt255(w), args);
    ghost var cells := Cells(types, LeafAt255(w), args);
    assert cells == [Cell(NULL_DISCRIMINATOR, w)];
    assert AllReadable(|types|, cells) <==> Readable(|types|, cells[0]);
  }
}
