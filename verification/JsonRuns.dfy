/** Blocks of rows through a JSON column: which rows are taken, and what comes back of them. */
module JsonRuns {
  import opened Base
  import opened Native
  import opened Json

  // ---------------------------------------------------------------- which rows are taken

  predicate IsObject(v: Input) {
    v.Obj? || v.BadObj?
  }

  predicate IsText(v: Input) {
    v.Text? || v.NullText?
  }

  /** The first row that is an object or a text decides. */
  function Lead(vs: seq<Input>): Mode {
    if vs == [] then Unset
    else if IsObject(vs[0]) then ObjectMode
    else if IsText(vs[0]) then StringMode
    else Lead(vs[1..])
  }

  /** Rows of the other kind are rejected, and so is what cannot be classified. */
  predicate Agrees(lead: Mode, v: Input) {
    v != Unsupported && (IsObject(v) ==> lead == ObjectMode) && (IsText(v) ==> lead == StringMode)
  }

  function Kept(lead: Mode, vs: seq<Input>): seq<Input> {
    if vs == [] then []
    else (if Agrees(lead, vs[0]) then [vs[0]] else []) + Kept(lead, vs[1..])
  }

  /** Every typed column takes the value or null, and the dynamic column of every other path that is not
      skipped takes the value. */
  ghost predicate ObjectFits(cfg: Config, o: Object) {
    && (forall t: nat | t < |cfg.typedPaths| ::
          cfg.typed(t, if cfg.typedPaths[t] in o then o[cfg.typedPaths[t]] else None).Some?)
    && (forall p | p in o && p !in cfg.typedPaths && p !in cfg.skipPaths && o[p].Some? ::
          cfg.dynamic(o[p].value).Some?)
  }

  /** A row that is not rejected is taken, or refused by a column. A null is an empty object among objects;
      `decided` tells whether the deciding row came before. */
  ghost predicate RowFits(cfg: Config, lead: Mode, decided: bool, v: Input) {
    match v
    case Obj(o) => ObjectFits(cfg, o)
    case BadObj => false
    case Text(t) => cfg.text(t).Some?
    case NullText => true
    case Nil => lead == ObjectMode ==> ObjectFits(cfg, map[])
    case NilAny(t) =>
      (lead == ObjectMode ==> ObjectFits(cfg, map[])) && (lead == StringMode && decided ==> cfg.text(t).Some?)
    case Unsupported => true
  }

  /** No column refuses a row. */
  ghost predicate AllFit(cfg: Config, lead: Mode, decided: bool, vs: seq<Input>)
    decreases |vs|
  {
    vs == [] ||
    ((Agrees(lead, vs[0]) ==> RowFits(cfg, lead, decided, vs[0]))
     && AllFit(cfg, lead, decided || IsObject(vs[0]) || IsText(vs[0]), vs[1..]))
  }

  // ---------------------------------------------------------------- what comes back

  /** What a block of rows leaves in the column: its sub-columns, and the rows put together again, or the texts. */
  datatype Block = Block(
    mode: Mode,
    paths: seq<string>,
    typed: seq<seq<Stored>>,
    dynamic: seq<seq<Option<Stored>>>,
    objects: seq<map<string, Option<Stored>>>,
    strings: seq<Stored>)

  ghost predicate Even<T>(cols: seq<seq<T>>, rows: nat) {
    forall k | 0 <= k < |cols| :: |cols[k]| == rows
  }

  /** There is a sub-column for each path, with an entry for each row. */
  ghost predicate ColumnsEven(cfg: Config, b: Block, rows: nat) {
    |b.typed| == |cfg.typedPaths| && |b.dynamic| == |b.paths| && Even(b.typed, rows) && Even(b.dynamic, rows)
  }

  /** An object comes back path by path: typed paths as their columns keep the value or null, the last of a
      repeated one; other paths of the object as a dynamic column keeps the value, null if it is null;
      known paths the object lacks as null; and nothing else. Skipped paths are not among them. */
  ghost predicate ObjectShown(cfg: Config, o: Object, paths: seq<string>, row: map<string, Option<Stored>>) {
    && (forall t: nat | t < |cfg.typedPaths| && LastOf(cfg.typedPaths, t, |cfg.typedPaths|) ::
          cfg.typedPaths[t] in row
          && row[cfg.typedPaths[t]] == cfg.typed(t, if cfg.typedPaths[t] in o then o[cfg.typedPaths[t]] else None))
    && (forall p | p in o && p !in cfg.typedPaths && p !in cfg.skipPaths ::
          p in paths && p in row && row[p] == (if o[p].Some? then cfg.dynamic(o[p].value) else None))
    && (forall p | p in paths && p !in o :: p in row && row[p] == None)
    && (forall p | p in paths :: p !in cfg.typedPaths && p !in cfg.skipPaths)
    && (forall p | p in row :: p in paths || p in cfg.typedPaths)
  }

  ghost predicate RowShown(cfg: Config, v: Input, paths: seq<string>, row: map<string, Option<Stored>>) {
    ObjectShown(cfg, if v.Obj? then v.o else map[], paths, row)
  }

  ghost predicate RowsShown(cfg: Config, vs: seq<Input>, paths: seq<string>, rows: seq<map<string, Option<Stored>>>) {
    |rows| <= |vs| && forall r | 0 <= r < |rows| :: RowShown(cfg, vs[r], paths, rows[r])
  }

  /** A text comes back as the text column keeps it, and a null as the literal null. */
  ghost predicate TextShown(cfg: Config, vs: seq<Input>, r: nat, w: Stored)
    requires r < |vs|
  {
    match vs[r]
    case Text(t) => cfg.text(t) == Some(w)
    case NilAny(t) => if exists k :: 0 <= k < r && IsText(vs[k]) then cfg.text(t) == Some(w) else w == cfg.nullText
    case _ => w == cfg.nullText
  }

  /** The paths of the objects among these rows. */
  function AllPaths(vs: seq<Input>): set<string> {
    if vs == [] then {} else AllPaths(vs[..|vs| - 1]) + PathsOf(vs[|vs| - 1])
  }

  function BlockPaths(blocks: seq<seq<Input>>): set<string> {
    if blocks == [] then {}
    else
      var n := |blocks| - 1;
      BlockPaths(blocks[..n]) + AllPaths(Kept(Lead(blocks[n]), blocks[n]))
  }

  /** Only paths of objects that were taken are known. */
  ghost predicate PathsSeen(paths: seq<string>, seen: set<string>) {
    forall p | p in paths :: p in seen
  }

  /** The block gives back exactly the rows that were not rejected, in the mode of the first of them that is
      an object or a text, and as texts if they are all nulls. */
  ghost predicate GivesBack(cfg: Config, vs: seq<Input>, b: Block) {
    var kept := Kept(Lead(vs), vs);
    && b.mode == (if Lead(vs) == Unset && kept != [] then StringMode else Lead(vs))
    && (b.mode == ObjectMode ==>
        ColumnsEven(cfg, b, |kept|) && |b.objects| == |kept| && RowsShown(cfg, kept, b.paths, b.objects))
    && (b.mode == StringMode ==>
        |b.strings| == |kept| && forall r: nat | r < |kept| :: TextShown(cfg, kept, r, b.strings[r]))
  }

  // ---------------------------------------------------------------- the column takes these rows

  /** The rows the column takes, one after the other, or None if a sub-column refuses one. */
  ghost function Taken(cfg: Config, mode: Mode, count: nat, vs: seq<Input>): Option<seq<Input>>
    decreases |vs|
  {
    if vs == [] then Some([])
    else if vs[0] == Unsupported || Conflicts(mode, vs[0]) then Taken(cfg, mode, count, vs[1..])
    else if !Accepts(cfg, mode, count, vs[0]) then None
    else Behind([vs[0]], Taken(cfg, Latched(mode, vs[0]), count + 1, vs[1..]))
  }

  ghost function Behind(front: seq<Input>, rest: Option<seq<Input>>): Option<seq<Input>> {
    if rest.None? then None else Some(front + rest.value)
  }

  lemma FitsIff(cfg: Config, o: Object)
    ensures ObjectFits(cfg, o) <==> TypedFit(cfg, o) && DynamicFit(cfg, o)
  {
    if ObjectFits(cfg, o) {
      forall t | 0 <= t < |cfg.typedPaths| ensures cfg.typed(t, ValueAt(o, cfg.typedPaths[t])).Some? {}
    }
  }

  lemma AcceptsLatched(cfg: Config, mode: Mode, count: nat, v: Input)
    requires mode != Unset && Agrees(mode, v)
    ensures Accepts(cfg, mode, count, v) <==> RowFits(cfg, mode, true, v)
  {
    FitsIff(cfg, if v.Obj? then v.o else map[]);
  }

  ghost function IfFit(fits: bool, vs: seq<Input>): Option<seq<Input>> {
    if fits then Some(vs) else None
  }

  lemma {:induction false} TakenLatched(cfg: Config, mode: Mode, count: nat, vs: seq<Input>)
    requires mode != Unset
    ensures Taken(cfg, mode, count, vs) == IfFit(AllFit(cfg, mode, true, vs), Kept(mode, vs))
    decreases |vs|
  {
    if vs != [] {
      if Agrees(mode, vs[0]) {
        AcceptsLatched(cfg, mode, count, vs[0]);
        TakenLatched(cfg, mode, count + 1, vs[1..]);
      } else {
        TakenLatched(cfg, mode, count, vs[1..]);
        assert [] + Kept(mode, vs[1..]) == Kept(mode, vs[1..]);
      }
    }
  }

  /** The waiting nulls fit the mode. */
  ghost predicate NullsFit(cfg: Config, lead: Mode, count: nat) {
    count > 0 && lead == ObjectMode ==> ObjectFits(cfg, map[])
  }

  lemma AcceptsLead(cfg: Config, count: nat, v: Input)
    requires IsObject(v) || IsText(v)
    ensures var lead := if IsObject(v) then ObjectMode else StringMode;
      && Latched(Unset, v) == lead && Agrees(lead, v)
      && (Accepts(cfg, Unset, count, v) <==> RowFits(cfg, lead, false, v) && NullsFit(cfg, lead, count))
  {
    FitsIff(cfg, if v.Obj? then v.o else map[]);
    FitsIff(cfg, map[]);
  }

  lemma {:induction false} TakenUnset(cfg: Config, count: nat, vs: seq<Input>)
    ensures var lead := Lead(vs);
      Taken(cfg, Unset, count, vs) == IfFit(AllFit(cfg, lead, false, vs) && NullsFit(cfg, lead, count), Kept(lead, vs))
    decreases |vs|
  {
    if vs != [] {
      var v := vs[0];
      if IsObject(v) || IsText(v) {
        AcceptsLead(cfg, count, v);
        TakenLatched(cfg, Lead(vs), count + 1, vs[1..]);
      } else if v == Unsupported {
        TakenUnset(cfg, count, vs[1..]);
        assert [] + Kept(Lead(vs), vs[1..]) == Kept(Lead(vs), vs[1..]);
      } else {
        TakenUnset(cfg, count + 1, vs[1..]);
      }
    }
  }

  // ---------------------------------------------------------------- appending a block

  ghost predicate AllAgree(vs: seq<Input>) {
    forall r | 0 <= r < |vs| :: Agrees(Lead(vs), vs[r]) && vs[r] != BadObj
  }

  /** The entry a row becomes. */
  ghost function EntryAt(vs: seq<Input>, r: nat): Entry
    requires r < |vs|
  {
    match vs[r]
    case Obj(o) => ObjectRow(o)
    case Text(t) => TextRow(t)
    case NilAny(t) => if exists k :: 0 <= k < r && IsText(vs[k]) then TextRow(t) else NullRow
    case _ => NullRow
  }

  ghost predicate Logged(vs: seq<Input>, log: seq<Entry>) {
    |log| == |vs| && forall r: nat | r < |vs| :: log[r] == EntryAt(vs, r)
  }

  lemma {:induction false} LeadSnoc(vs: seq<Input>, v: Input)
    ensures Lead(vs + [v]) == if Lead(vs) == Unset then Lead([v]) else Lead(vs)
  {
    if vs == [] {
      assert vs + [v] == [v];
    } else {
      assert (vs + [v])[1..] == vs[1..] + [v];
      LeadSnoc(vs[1..], v);
    }
  }

  lemma LeadOne(mode: Mode, v: Input)
    ensures Latched(mode, v) == if mode == Unset then Lead([v]) else mode
  {
    assert [v][1..] == [];
  }

  lemma {:induction false} LeadIs(vs: seq<Input>)
    ensures Lead(vs) == StringMode ==> exists k :: 0 <= k < |vs| && IsText(vs[k])
    ensures Lead(vs) == Unset ==> forall k | 0 <= k < |vs| :: !IsText(vs[k]) && !IsObject(vs[k])
  {
    if vs != [] && !IsText(vs[0]) && !IsObject(vs[0]) {
      LeadIs(vs[1..]);
      if Lead(vs) == StringMode {
        var k :| 0 <= k < |vs| - 1 && IsText(vs[1..][k]);
        assert IsText(vs[k + 1]);
      }
      forall k | 0 <= k < |vs| && Lead(vs) == Unset ensures !IsText(vs[k]) && !IsObject(vs[k]) {
        if k > 0 { assert vs[1..][k - 1] == vs[k]; }
      }
    }
  }

  lemma LoggedSnoc(vs: seq<Input>, log: seq<Entry>, v: Input)
    requires Logged(vs, log) && AllAgree(vs) && v != Unsupported && v != BadObj && !Conflicts(Lead(vs), v)
    ensures var mode := Latched(Lead(vs), v);
      Lead(vs + [v]) == mode && AllAgree(vs + [v]) && Logged(vs + [v], log + [Entered(mode, v)])
  {
    LeadSnoc(vs, v);
    LeadOne(Lead(vs), v);
    LeadIs(vs);
    var vs', n := vs + [v], |vs|;
    forall r: nat | r < n ensures EntryAt(vs', r) == EntryAt(vs, r) {
      assert forall k | 0 <= k < r :: vs'[k] == vs[k];
      assert vs'[r] == vs[r];
    }
    assert EntryAt(vs', n) == Entered(Lead(vs'), v) by {
      assert vs'[n] == v && forall k | 0 <= k < n :: vs'[k] == vs[k];
    }
  }

  lemma BehindBehind(a: seq<Input>, v: Input, rest: Option<seq<Input>>)
    ensures Behind(a, Behind([v], rest)) == Behind(a + [v], rest)
  {
    if rest.Some? { assert a + ([v] + rest.value) == (a + [v]) + rest.value; }
  }

  /** The column holds these rows of a block. */
  ghost predicate Holds(col: Column, vs: seq<Input>)
    reads col
  {
    col.Valid() && col.mode == Lead(vs) && AllAgree(vs) && Logged(vs, col.log)
  }

  /** The next row; `taken` are those before it, and `whole` is what comes of the block. */
  method AppendNext(col: Column, vs: seq<Input>, ghost taken: seq<Input>, ghost whole: Option<seq<Input>>)
      returns (r: Outcome, ghost taken': seq<Input>)
    requires vs != [] && Holds(col, taken) && whole == Behind(taken, Taken(col.cfg, col.mode, col.rows, vs))
    modifies col
    ensures r == Refused ==> whole == None
    ensures r != Refused ==> Holds(col, taken') && taken <= taken' && |taken'| <= |taken| + 1
    ensures r != Refused ==>
      Grown(old(col.dynamicPaths), col.dynamicPaths, if taken' == taken then {} else PathsOf(taken'[|taken|]))
    ensures r != Refused ==> whole == Behind(taken', Taken(col.cfg, col.mode, col.rows, vs[1..]))
  {
    ghost var log := col.log;
    taken' := taken;
    r := col.AppendRow(vs[0]);
    if r == Appended {
      LoggedSnoc(taken, log, vs[0]);
      BehindBehind(taken, vs[0], Taken(col.cfg, col.mode, col.rows, vs[1..]));
      taken' := taken + [vs[0]];
    }
  }

  lemma PathsSnoc(vs: seq<Input>, vs': seq<Input>)
    requires vs <= vs' && |vs'| <= |vs| + 1
    ensures AllPaths(vs') == AllPaths(vs) + if vs' == vs then {} else PathsOf(vs'[|vs|])
  {
    if |vs'| > |vs| { assert vs'[..|vs|] == vs; } else { assert vs' == vs; }
  }

  /** Rejected rows are skipped; a row that a column refuses ends the block. */
  method AppendBlock(col: Column, vs: seq<Input>) returns (ok: bool)
    requires Empty(col)
    modifies col
    ensures ok == AllFit(col.cfg, Lead(vs), false, vs)
    ensures ok ==> Holds(col, Kept(Lead(vs), vs))
    ensures ok ==> Grown(old(col.dynamicPaths), col.dynamicPaths, AllPaths(Kept(Lead(vs), vs)))
  {
    ghost var taken := [];
    var i := 0;
    assert vs[0..] == vs;
    ghost var whole := Taken(col.cfg, Unset, 0, vs);
    TakenUnset(col.cfg, 0, vs);
    assert whole == Behind([], whole) by { if whole.Some? { assert [] + whole.value == whole.value; } }
    while i < |vs|
      invariant 0 <= i <= |vs| && Holds(col, taken)
      invariant Grown(old(col.dynamicPaths), col.dynamicPaths, AllPaths(taken))
      invariant whole == Behind(taken, Taken(col.cfg, col.mode, col.rows, vs[i..]))
    {
      assert vs[i..][1..] == vs[i + 1..];
      var r;
      ghost var before := taken;
      r, taken := AppendNext(col, vs[i..], taken, whole);
      if r == Refused { return false; }
      PathsSnoc(before, taken);
      i := i + 1;
    }
    assert taken + [] == taken;
    ok := true;
  }

  // ---------------------------------------------------------------- reading a block

  lemma {:induction false} LeadAgreed(vs: seq<Input>)
    requires AllAgree(vs) && Lead(vs) == ObjectMode
    ensures forall r | 0 <= r < |vs| :: !IsText(vs[r])
  {
    forall r | 0 <= r < |vs| ensures !IsText(vs[r]) { assert Agrees(Lead(vs), vs[r]); }
  }

  /** What the columns show is what the object has. */
  lemma ShownIs(cfg: Config, o: Object, paths: seq<string>, index: map<string, nat>, row: map<string, Option<Stored>>)
    requires TypedShown(cfg, |cfg.typedPaths|, o, row) && DynamicShown(cfg, paths, o, row) && Indexed(cfg, paths, index)
    requires forall p | p in o && !Fixed(cfg, p) :: p in paths
    requires forall p | p in row :: p in paths || p in cfg.typedPaths
    ensures ObjectShown(cfg, o, paths, row)
  {
    forall p | p in paths ensures p in row && row[p] == Cell(cfg, o, p) && !Fixed(cfg, p) {
      var k :| 0 <= k < |paths| && paths[k] == p;
    }
  }

  method ReadObject(col: Column, r: nat, ghost vs: seq<Input>) returns (row: map<string, Option<Stored>>)
    requires Holds(col, vs) && col.mode == ObjectMode && r < |vs|
    ensures RowShown(col.cfg, vs[r], col.dynamicPaths, row)
  {
    row := col.RowAsJson(r);
    LeadAgreed(vs);
    ghost var o := if vs[r].Obj? then vs[r].o else map[];
    assert col.log[r] == EntryAt(vs, r) && ObjectOf(col.log[r]) == o;
    PathKnown(col.cfg, Objects(col.log), col.dynamicPaths, col.dynamicPathsIndex, r);
    ShownIs(col.cfg, o, col.dynamicPaths, col.dynamicPathsIndex, row);
  }

  lemma PathKnown(cfg: Config, objs: seq<Object>, paths: seq<string>, index: map<string, nat>, r: nat)
    requires Indexed(cfg, paths, index) && Known(cfg, index, objs) && r < |objs|
    ensures forall p | p in objs[r] && !Fixed(cfg, p) :: p in paths
  {
  }

  lemma RowsShownSnoc(cfg: Config, vs: seq<Input>, paths: seq<string>, rows: seq<map<string, Option<Stored>>>,
                      row: map<string, Option<Stored>>)
    requires |rows| < |vs| && RowsShown(cfg, vs, paths, rows) && RowShown(cfg, vs[|rows|], paths, row)
    ensures RowsShown(cfg, vs, paths, rows + [row])
  {
  }

  method ReadObjects(col: Column, ghost vs: seq<Input>) returns (objects: seq<map<string, Option<Stored>>>)
    requires Holds(col, vs) && col.mode == ObjectMode
    ensures |objects| == |vs| && RowsShown(col.cfg, vs, col.dynamicPaths, objects)
  {
    objects := [];
    var r := 0;
    while r < col.rows
      invariant 0 <= r == |objects| <= col.rows && RowsShown(col.cfg, vs, col.dynamicPaths, objects)
    {
      var row := ReadObject(col, r, vs);
      RowsShownSnoc(col.cfg, vs, col.dynamicPaths, objects, row);
      objects := objects + [row];
      r := r + 1;
    }
  }

  lemma HeldEven(cfg: Config, objs: seq<Object>, b: Block)
    requires TypedHeld(cfg, objs, b.typed) && DynamicHeld(cfg, objs, b.paths, b.dynamic)
    ensures ColumnsEven(cfg, b, |objs|)
  {
    forall t | 0 <= t < |b.typed| ensures |b.typed[t]| == |objs| { assert TypedColumn(cfg, objs, t, b.typed[t]); }
    forall k | 0 <= k < |b.dynamic| ensures |b.dynamic[k]| == |objs| {
      assert DynamicColumn(cfg, objs, b.paths[k], b.dynamic[k]);
    }
  }

  lemma TextsShown(cfg: Config, vs: seq<Input>, log: seq<Entry>, strings: seq<Stored>)
    requires Logged(vs, log) && TextsHeld(cfg, log, strings)
    ensures forall r: nat | r < |vs| :: TextShown(cfg, vs, r, strings[r])
  {
    forall r: nat | r < |vs| ensures TextShown(cfg, vs, r, strings[r]) {
      assert log[r] == EntryAt(vs, r) && TextHeld(cfg, log[r], strings[r]);
    }
  }

  /** The rows of the block, each in its form. */
  ghost predicate BlockHeld(cfg: Config, vs: seq<Input>, b: Block) {
    && (b.mode == ObjectMode ==>
        ColumnsEven(cfg, b, |vs|) && |b.objects| == |vs| && RowsShown(cfg, vs, b.paths, b.objects))
    && (b.mode == StringMode ==>
        |b.strings| == |vs| && forall r: nat | r < |vs| :: TextShown(cfg, vs, r, b.strings[r]))
  }

  method ReadBlock(col: Column, ghost vs: seq<Input>) returns (b: Block)
    requires col.Valid() && AllAgree(vs) && Logged(vs, col.log)
    requires col.mode == Lead(vs) || (Lead(vs) == Unset && col.mode == StringMode)
    ensures BlockHeld(col.cfg, vs, b) && b.mode == col.mode && b.paths == col.dynamicPaths
  {
    var objects := [];
    if col.mode == ObjectMode { objects := ReadObjects(col, vs); }
    b := Block(col.mode, col.dynamicPaths, col.typedColumns, col.dynamicColumns, objects, col.strings);
    if col.mode == ObjectMode { HeldEven(col.cfg, Objects(col.log), b); }
    if col.mode == StringMode { TextsShown(col.cfg, vs, col.log, col.strings); }
  }

  method FinishBlock(col: Column, ghost vs: seq<Input>) returns (b: Block)
    requires Holds(col, vs)
    modifies col
    ensures BlockHeld(col.cfg, vs, b) && b.mode == (if Lead(vs) == Unset && vs != [] then StringMode else Lead(vs))
    ensures Empty(col) && col.dynamicPaths == b.paths && Grown(old(col.dynamicPaths), b.paths, {})
  {
    var ok, header := col.WriteStatePrefix();
    b := ReadBlock(col, vs);
    col.Reset();
  }

  ghost predicate Empty(col: Column)
    reads col
  {
    col.Valid() && col.log == [] && col.mode == Unset
  }

  lemma {:induction false} KeptLead(lead: Mode, vs: seq<Input>)
    requires lead == Lead(vs)
    ensures Lead(Kept(lead, vs)) == lead
  {
    if vs != [] && !IsObject(vs[0]) && !IsText(vs[0]) {
      KeptLead(lead, vs[1..]);
      if vs[0] == Unsupported {
        assert [] + Kept(lead, vs[1..]) == Kept(lead, vs[1..]);
      } else {
        assert ([vs[0]] + Kept(lead, vs[1..]))[1..] == Kept(lead, vs[1..]);
      }
    }
  }

  /** One block: its rows are appended, written out and read, and the column is reset. */
  method RunBlock(col: Column, vs: seq<Input>) returns (ok: bool, b: Block)
    requires Empty(col)
    modifies col
    ensures ok == AllFit(col.cfg, Lead(vs), false, vs)
    ensures ok ==> Empty(col) && GivesBack(col.cfg, vs, b) && col.dynamicPaths == b.paths
    ensures ok ==> Grown(old(col.dynamicPaths), b.paths, AllPaths(Kept(Lead(vs), vs)))
  {
    b := Block(Unset, [], [], [], [], []);
    ok := AppendBlock(col, vs);
    if !ok { return; }
    KeptLead(Lead(vs), vs);
    b := FinishBlock(col, Kept(Lead(vs), vs));
  }

  /** No column refuses a row of the block. */
  ghost predicate BlockFits(cfg: Config, vs: seq<Input>) {
    AllFit(cfg, Lead(vs), false, vs)
  }

  /** The block fits, and gives back what it should under paths that were seen up to it. */
  ghost predicate BlockRight(cfg: Config, blocks: seq<seq<Input>>, k: nat, b: Block)
    requires k < |blocks|
  {
    BlockFits(cfg, blocks[k]) && GivesBack(cfg, blocks[k], b) && PathsSeen(b.paths, BlockPaths(blocks[..k + 1]))
  }

  ghost predicate AllRight(cfg: Config, blocks: seq<seq<Input>>, out: seq<Block>) {
    |out| <= |blocks| && forall k: nat | k < |out| :: BlockRight(cfg, blocks, k, out[k])
  }

  lemma AllRightSnoc(cfg: Config, blocks: seq<seq<Input>>, out: seq<Block>, b: Block)
    requires AllRight(cfg, blocks, out) && |out| < |blocks| && BlockRight(cfg, blocks, |out|, b)
    ensures AllRight(cfg, blocks, out + [b])
  {
  }

  lemma AllRightFit(cfg: Config, blocks: seq<seq<Input>>, out: seq<Block>)
    requires AllRight(cfg, blocks, out)
    ensures forall k: nat | k < |out| :: BlockFits(cfg, blocks[k])
  {
    forall k: nat | k < |out| ensures BlockFits(cfg, blocks[k]) { assert BlockRight(cfg, blocks, k, out[k]); }
  }

  method RunNext(col: Column, blocks: seq<seq<Input>>, i: nat) returns (ok: bool, b: Block)
    requires i < |blocks| && Empty(col) && PathsSeen(col.dynamicPaths, BlockPaths(blocks[..i]))
    modifies col
    ensures ok == BlockFits(col.cfg, blocks[i])
    ensures ok ==> Empty(col) && BlockRight(col.cfg, blocks, i, b)
    ensures ok ==> PathsSeen(col.dynamicPaths, BlockPaths(blocks[..i + 1]))
  {
    ok, b := RunBlock(col, blocks[i]);
    assert blocks[..i + 1][..i] == blocks[..i] && blocks[..i + 1][i] == blocks[i];
  }

  /** Blocks of rows through one column, which is reset after each: every block gives back the rows that
      were not rejected, whatever the blocks before it were. The run ends early exactly if a column refuses
      a row. */
  method Run(cfg: Config, blocks: seq<seq<Input>>) returns (ok: bool, out: seq<Block>)
    ensures ok <==> forall k | 0 <= k < |blocks| :: BlockFits(cfg, blocks[k])
    ensures ok ==> |out| == |blocks| && AllRight(cfg, blocks, out)
  {
    var col := new Column(cfg);
    out := [];
    var i := 0;
    while i < |blocks|
      invariant 0 <= i == |out| <= |blocks| && fresh(col) && col.cfg == cfg && Empty(col)
      invariant PathsSeen(col.dynamicPaths, BlockPaths(blocks[..i]))
      invariant AllRight(cfg, blocks, out)
    {
      var b;
      ok, b := RunNext(col, blocks, i);
      if !ok { return; }
      AllRightSnoc(cfg, blocks, out, b);
      out := out + [b];
      i := i + 1;
    }
    AllRightFit(cfg, blocks, out);
    ok := true;
  }
}
