/** JSON columns (lib/column/json.go): one column per path, or text; the first row that is not null decides. */
module Json {
  import opened Base
  import opened Native

  /** The values of an object by path; a path can hold an explicit null. */
  type Object = map<string, Option<Any>>

  /** What a column of the given type is set up with: the typed paths in order, the skipped paths, what
      the typed columns, a dynamic column and the text column keep of a value (None: they refuse),
      and what the text column keeps of the literal null. */
  datatype Config = Config(
    typedPaths: seq<string>,
    skipPaths: set<string>,
    typed: (nat, Option<Any>) -> Option<Stored>,
    dynamic: Any -> Option<Stored>,
    text: Any -> Option<Stored>,
    nullText: Stored)

  datatype Mode = Unset | ObjectMode | StringMode

  /** A value offered as a row, by how it is classified: a nil, a pointer to a nil interface, a value
      that becomes an object or fails to, a text, a text type holding null, or anything else. */
  datatype Input = Nil | NilAny(v: Any) | Obj(o: Object) | BadObj | Text(v: Any) | NullText | Unsupported

  function Wants(v: Input): Option<Mode> {
    match v
    case Obj(_) => Some(ObjectMode)
    case BadObj => Some(ObjectMode)
    case Text(_) => Some(StringMode)
    case NullText => Some(StringMode)
    case _ => None
  }

  datatype Outcome = Appended | Unclassified | Conflict | Refused

  // ---------------------------------------------------------------- what the columns hold

  function ValueAt(o: Object, path: string): Option<Any> {
    if path in o then o[path] else None
  }

  /** What the dynamic column of a path keeps for an object: null if the path is absent or null. */
  function Cell(cfg: Config, o: Object, path: string): Option<Stored> {
    match ValueAt(o, path)
    case None => None
    case Some(v) => cfg.dynamic(v)
  }

  /** Paths that never get a dynamic column. */
  predicate Fixed(cfg: Config, path: string) {
    path in cfg.typedPaths || path in cfg.skipPaths
  }

  ghost predicate TypedFit(cfg: Config, o: Object) {
    forall t | 0 <= t < |cfg.typedPaths| :: cfg.typed(t, ValueAt(o, cfg.typedPaths[t])).Some?
  }

  ghost predicate DynamicFit(cfg: Config, o: Object) {
    forall p | p in o && !Fixed(cfg, p) && o[p].Some? :: cfg.dynamic(o[p].value).Some?
  }

  ghost predicate TypedColumn(cfg: Config, objs: seq<Object>, t: nat, col: seq<Stored>)
    requires t < |cfg.typedPaths|
  {
    |col| == |objs| && forall r | 0 <= r < |objs| :: cfg.typed(t, ValueAt(objs[r], cfg.typedPaths[t])) == Some(col[r])
  }

  ghost predicate TypedHeld(cfg: Config, objs: seq<Object>, cols: seq<seq<Stored>>) {
    |cols| == |cfg.typedPaths| && forall t | 0 <= t < |cols| :: TypedColumn(cfg, objs, t, cols[t])
  }

  ghost predicate DynamicColumn(cfg: Config, objs: seq<Object>, path: string, col: seq<Option<Stored>>) {
    |col| == |objs| && forall r | 0 <= r < |objs| :: col[r] == Cell(cfg, objs[r], path)
  }

  ghost predicate DynamicHeld(cfg: Config, objs: seq<Object>, paths: seq<string>, cols: seq<seq<Option<Stored>>>) {
    |cols| == |paths| && forall k | 0 <= k < |paths| :: DynamicColumn(cfg, objs, paths[k], cols[k])
  }

  /** The index lists exactly the known paths, none of them typed or skipped. */
  ghost predicate Indexed(cfg: Config, paths: seq<string>, index: map<string, nat>) {
    && (forall k | 0 <= k < |paths| :: paths[k] in index && index[paths[k]] == k)
    && (forall p | p in index :: index[p] < |paths| && paths[index[p]] == p && !Fixed(cfg, p))
  }

  ghost predicate AllKnown(cfg: Config, index: map<string, nat>, o: Object) {
    forall p | p in o :: Fixed(cfg, p) || p in index
  }

  ghost predicate Known(cfg: Config, index: map<string, nat>, objs: seq<Object>) {
    forall r | 0 <= r < |objs| :: AllKnown(cfg, index, objs[r])
  }

  lemma TypedSnoc(cfg: Config, objs: seq<Object>, o: Object, t: nat, col: seq<Stored>, w: Stored)
    requires t < |cfg.typedPaths| && TypedColumn(cfg, objs, t, col)
    requires cfg.typed(t, ValueAt(o, cfg.typedPaths[t])) == Some(w)
    ensures TypedColumn(cfg, objs + [o], t, col + [w])
  {
  }

  lemma DynamicSnoc(cfg: Config, objs: seq<Object>, o: Object, path: string, col: seq<Option<Stored>>)
    requires DynamicColumn(cfg, objs, path, col)
    ensures DynamicColumn(cfg, objs + [o], path, col + [Cell(cfg, o, path)])
  {
  }

  /** A path no object had: a column of nulls. */
  lemma BackFilled(cfg: Config, index: map<string, nat>, objs: seq<Object>, path: string)
    requires Known(cfg, index, objs) && !Fixed(cfg, path) && path !in index
    ensures DynamicColumn(cfg, objs, path, seq(|objs|, _ => None))
  {
  }

  // ---------------------------------------------------------------- appending to the columns

  /** Every typed column gets a value for the row, null if the path is absent. */
  method AppendTyped(cfg: Config, cols: seq<seq<Stored>>, o: Object, ghost objs: seq<Object>)
      returns (ok: bool, cols': seq<seq<Stored>>)
    requires TypedHeld(cfg, objs, cols)
    ensures ok == TypedFit(cfg, o)
    ensures ok ==> TypedHeld(cfg, objs + [o], cols')
  {
    cols' := cols;
    var t := 0;
    while t < |cfg.typedPaths|
      invariant 0 <= t <= |cfg.typedPaths| == |cols'|
      invariant forall k | 0 <= k < t ::
        cfg.typed(k, ValueAt(o, cfg.typedPaths[k])).Some? && TypedColumn(cfg, objs + [o], k, cols'[k])
      invariant forall k | t <= k < |cols'| :: cols'[k] == cols[k]
    {
      var w := cfg.typed(t, ValueAt(o, cfg.typedPaths[t]));
      if w.None? { return false, cols'; }
      TypedSnoc(cfg, objs, o, t, cols[t], w.value);
      cols' := cols'[t := cols'[t] + [w.value]];
      t := t + 1;
    }
    ok := true;
  }

  ghost predicate Filled(o: Object, paths: seq<string>, values: Object) {
    && (forall p :: p in values <==> p in o || p in paths)
    && (forall p | p in values :: values[p] == ValueAt(o, p))
  }

  /** Known paths the object lacks are added as nulls. */
  method FillMissing(o: Object, paths: seq<string>) returns (values: Object)
    ensures Filled(o, paths, values)
  {
    values := o;
    var k := 0;
    while k < |paths|
      invariant 0 <= k <= |paths| && Filled(o, paths[..k], values)
    {
      assert paths[..k + 1] == paths[..k] + [paths[k]];
      if paths[k] !in values {
        values := values[paths[k] := None];
      }
      k := k + 1;
    }
    assert paths[..k] == paths;
  }

  /** The dynamic paths, where each is, and their columns. */
  datatype Dynamics = Dynamics(paths: seq<string>, index: map<string, nat>, cols: seq<seq<Option<Stored>>>)

  /** Paths are only added, and only from `more`. */
  ghost predicate Grown(paths: seq<string>, paths': seq<string>, more: set<string>) {
    paths <= paths' && forall p | p in paths' :: p in paths || p in more
  }

  function PathsOf(v: Input): set<string> {
    if v.Obj? then v.o.Keys else {}
  }

  /** While a row is being appended: columns of the paths still to do lack the row. */
  ghost predicate Partway(cfg: Config, objs: seq<Object>, o: Object, todo: set<string>, d: Dynamics) {
    && |d.cols| == |d.paths| && Indexed(cfg, d.paths, d.index)
    && forall k | 0 <= k < |d.paths| ::
      DynamicColumn(cfg, if d.paths[k] in todo then objs else objs + [o], d.paths[k], d.cols[k])
  }

  lemma StepFixed(cfg: Config, objs: seq<Object>, o: Object, todo: set<string>, p: string, d: Dynamics)
    requires Partway(cfg, objs, o, todo, d) && Fixed(cfg, p)
    ensures Partway(cfg, objs, o, todo - {p}, d)
  {
  }

  lemma StepKnown(cfg: Config, objs: seq<Object>, o: Object, todo: set<string>, p: string, d: Dynamics)
    requires Partway(cfg, objs, o, todo, d) && p in todo && p in d.index
    ensures Partway(cfg, objs, o, todo - {p}, d.(cols := d.cols[d.index[p] := d.cols[d.index[p]] + [Cell(cfg, o, p)]]))
  {
  }

  lemma StepNew(cfg: Config, objs: seq<Object>, o: Object, todo: set<string>, p: string, d: Dynamics,
                col: seq<Option<Stored>>)
    requires Partway(cfg, objs, o, todo, d) && p !in d.index && !Fixed(cfg, p)
    requires DynamicColumn(cfg, objs + [o], p, col)
    ensures Partway(cfg, objs, o, todo - {p}, Dynamics(d.paths + [p], d.index[p := |d.paths|], d.cols + [col]))
  {
  }

  /** What one path of the row adds. */
  method AppendPath(cfg: Config, rows: nat, p: string, value: Option<Any>, d: Dynamics,
                    ghost objs: seq<Object>, ghost o: Object, ghost todo: set<string>)
      returns (ok: bool, d': Dynamics)
    requires Partway(cfg, objs, o, todo, d) && p in todo && rows == |objs| && value == ValueAt(o, p)
    requires Known(cfg, d.index, objs)
    ensures ok == (Fixed(cfg, p) || value.None? || cfg.dynamic(value.value).Some?)
    ensures ok ==> Partway(cfg, objs, o, todo - {p}, d')
    ensures ok ==> Grown(d.paths, d'.paths, {p}) && d.index.Keys <= d'.index.Keys && (Fixed(cfg, p) || p in d'.index)
  {
    d' := d;
    if Fixed(cfg, p) {
      StepFixed(cfg, objs, o, todo, p, d);
      return true, d;
    }
    var stored := if value.None? then None else cfg.dynamic(value.value);
    ok := value.None? || stored.Some?;
    if p in d.index {
      if !ok { return; }
      StepKnown(cfg, objs, o, todo, p, d);
      d' := d.(cols := d.cols[d.index[p] := d.cols[d.index[p]] + [stored]]);
    } else {
      var col := NewColumn(rows);
      if !ok { return; }
      BackFilled(cfg, d.index, objs, p);
      DynamicSnoc(cfg, objs, o, p, col);
      StepNew(cfg, objs, o, todo, p, d, col + [stored]);
      d' := Dynamics(d.paths + [p], d.index[p := |d.paths|], d.cols + [col + [stored]]);
    }
  }

  /** A dynamic column with nulls for the rows that came before its path. */
  method NewColumn(rows: nat) returns (col: seq<Option<Stored>>)
    ensures col == seq(rows, _ => None)
  {
    col := [];
    var i := 0;
    while i < rows
      invariant 0 <= i == |col| <= rows && forall k | 0 <= k < i :: col[k] == None
    {
      col := col + [None];
      i := i + 1;
    }
  }

  ghost predicate DoneFit(cfg: Config, values: Object, todo: set<string>) {
    forall p | p in values && p !in todo && !Fixed(cfg, p) && values[p].Some? :: cfg.dynamic(values[p].value).Some?
  }

  ghost predicate DoneKnown(cfg: Config, values: Object, todo: set<string>, index: map<string, nat>) {
    forall p | p in values && p !in todo :: Fixed(cfg, p) || p in index
  }

  /** All paths of the row, in any order. */
  method AppendPaths(cfg: Config, rows: nat, values: Object, d: Dynamics, ghost objs: seq<Object>, ghost o: Object)
      returns (ok: bool, d': Dynamics)
    requires Partway(cfg, objs, o, values.Keys, d) && rows == |objs| && Known(cfg, d.index, objs)
    requires forall p | p in values :: values[p] == ValueAt(o, p)
    ensures ok == DoneFit(cfg, values, {})
    ensures ok ==> Partway(cfg, objs, o, {}, d') && Grown(d.paths, d'.paths, values.Keys)
    ensures ok ==> Known(cfg, d'.index, objs) && DoneKnown(cfg, values, {}, d'.index)
  {
    d' := d;
    var todo := values.Keys;
    while todo != {}
      invariant todo <= values.Keys && Partway(cfg, objs, o, todo, d')
      invariant Grown(d.paths, d'.paths, values.Keys) && Known(cfg, d'.index, objs)
      invariant DoneFit(cfg, values, todo) && DoneKnown(cfg, values, todo, d'.index)
      decreases |todo|
    {
      var p :| p in todo;
      ghost var index := d'.index;
      ok, d' := AppendPath(cfg, rows, p, values[p], d', objs, o, todo);
      if !ok { return; }
      KnownMore(cfg, index, d'.index, objs);
      todo := todo - {p};
    }
    ok := true;
  }

  lemma KnownMore(cfg: Config, index: map<string, nat>, index': map<string, nat>, objs: seq<Object>)
    requires Known(cfg, index, objs) && index.Keys <= index'.Keys
    ensures Known(cfg, index', objs)
  {
  }

  /** The dynamic columns hold these objects under known paths. */
  ghost predicate PathsHeld(cfg: Config, objs: seq<Object>, d: Dynamics) {
    DynamicHeld(cfg, objs, d.paths, d.cols) && Indexed(cfg, d.paths, d.index) && Known(cfg, d.index, objs)
  }

  lemma FilledFit(cfg: Config, o: Object, paths: seq<string>, values: Object)
    requires Filled(o, paths, values)
    ensures DoneFit(cfg, values, {}) <==> DynamicFit(cfg, o)
  {
  }

  lemma KnownGrows(cfg: Config, objs: seq<Object>, o: Object, paths: seq<string>, values: Object,
                   index: map<string, nat>)
    requires Known(cfg, index, objs) && Filled(o, paths, values) && DoneKnown(cfg, values, {}, index)
    ensures Known(cfg, index, objs + [o])
  {
  }

  /** The row's paths: known ones get its value or null, new ones a column of their own. */
  method AppendDynamic(cfg: Config, rows: nat, o: Object, d: Dynamics, ghost objs: seq<Object>)
      returns (ok: bool, d': Dynamics)
    requires PathsHeld(cfg, objs, d) && rows == |objs|
    ensures ok == DynamicFit(cfg, o)
    ensures ok ==> PathsHeld(cfg, objs + [o], d') && Grown(d.paths, d'.paths, o.Keys)
  {
    var values := FillMissing(o, d.paths);
    FilledFit(cfg, o, d.paths, values);
    PartwayStart(cfg, objs, o, values, d);
    ok, d' := AppendPaths(cfg, rows, values, d, objs, o);
    if ok { KnownGrows(cfg, objs, o, d.paths, values, d'.index); }
  }

  lemma PartwayStart(cfg: Config, objs: seq<Object>, o: Object, values: Object, d: Dynamics)
    requires PathsHeld(cfg, objs, d) && Filled(o, d.paths, values)
    ensures Partway(cfg, objs, o, values.Keys, d)
  {
  }

  // ---------------------------------------------------------------- the column

  /** A row as the column takes it: null, an object or a text. */
  datatype Entry = NullRow | ObjectRow(o: Object) | TextRow(v: Any)

  function ObjectOf(e: Entry): Object {
    if e.ObjectRow? then e.o else map[]
  }

  function Objects(log: seq<Entry>): (r: seq<Object>)
    ensures |r| == |log|
  {
    seq(|log|, i requires 0 <= i < |log| => ObjectOf(log[i]))
  }

  /** What the text column holds for a row: the literal null for null. */
  ghost predicate TextHeld(cfg: Config, e: Entry, w: Stored) {
    match e
    case NullRow => w == cfg.nullText
    case ObjectRow(_) => false
    case TextRow(v) => cfg.text(v) == Some(w)
  }

  ghost predicate TextsHeld(cfg: Config, log: seq<Entry>, strings: seq<Stored>) {
    |strings| == |log| && forall r | 0 <= r < |log| :: TextHeld(cfg, log[r], strings[r])
  }

  /** The entry a value becomes, by the mode it is appended in. */
  function Entered(mode: Mode, v: Input): Entry {
    match v
    case Obj(o) => ObjectRow(o)
    case Text(t) => TextRow(t)
    case NilAny(t) => if mode == StringMode then TextRow(t) else NullRow
    case _ => NullRow
  }

  ghost predicate EntryFits(cfg: Config, mode: Mode, e: Entry) {
    match mode
    case Unset => e == NullRow
    case ObjectMode => !e.TextRow? && TypedFit(cfg, ObjectOf(e)) && DynamicFit(cfg, ObjectOf(e))
    case StringMode => e == NullRow || (e.TextRow? && cfg.text(e.v).Some?)
  }

  /** The mode after a value that is not in conflict. */
  function Latched(mode: Mode, v: Input): Mode {
    if mode == Unset && Wants(v).Some? then Wants(v).value else mode
  }

  ghost predicate Conflicts(mode: Mode, v: Input) {
    mode != Unset && Wants(v).Some? && Wants(v).value != mode
  }

  /** Whether a row is taken, given how many nulls are waiting. */
  ghost predicate Accepts(cfg: Config, mode: Mode, pending: nat, v: Input) {
    var latched := Latched(mode, v);
    && (mode == Unset && latched != Unset && pending > 0 ==> EntryFits(cfg, latched, NullRow))
    && v != BadObj && EntryFits(cfg, latched, Entered(latched, v))
  }

  class Column {
    const cfg: Config
    var rows: nat
    var mode: Mode
    var pendingNullRows: nat
    var strings: seq<Stored>
    var typedColumns: seq<seq<Stored>>
    var dynamicPaths: seq<string>
    var dynamicPathsIndex: map<string, nat>
    var dynamicColumns: seq<seq<Option<Stored>>>
    var totalDynamicPaths: nat

    ghost var log: seq<Entry>

    /** The object columns hold these objects, and every path of theirs is known. */
    ghost predicate ColumnsHeld(objs: seq<Object>)
      reads this
    {
      && TypedHeld(cfg, objs, typedColumns)
      && PathsHeld(cfg, objs, Dynamics(dynamicPaths, dynamicPathsIndex, dynamicColumns))
      && totalDynamicPaths == |dynamicPaths|
    }

    /** Only the backing of the latched mode holds rows. */
    ghost predicate Valid()
      reads this
    {
      && rows == |log|
      && pendingNullRows == (if mode == Unset then rows else 0)
      && (forall r | 0 <= r < |log| :: EntryFits(cfg, mode, log[r]))
      && ColumnsHeld(if mode == ObjectMode then Objects(log) else [])
      && TextsHeld(cfg, if mode == StringMode then log else [], strings)
    }

    constructor (cfg: Config)
      ensures Valid() && fresh(this) && this.cfg == cfg && log == [] && mode == Unset && dynamicPaths == []
    {
      this.cfg := cfg;
      rows, mode, pendingNullRows, strings, log := 0, Unset, 0, [], [];
      typedColumns := seq(|cfg.typedPaths|, _ => []);
      dynamicPaths, dynamicPathsIndex, dynamicColumns, totalDynamicPaths := [], map[], [], 0;
    }

    method AppendRowObject(o: Object, ghost objs: seq<Object>) returns (ok: bool)
      requires ColumnsHeld(objs) && rows == |objs|
      modifies this`rows, this`typedColumns, this`dynamicPaths, this`dynamicPathsIndex, this`dynamicColumns,
        this`totalDynamicPaths
      ensures ok == (TypedFit(cfg, o) && DynamicFit(cfg, o))
      ensures ok ==> ColumnsHeld(objs + [o]) && rows == old(rows) + 1 && Grown(old(dynamicPaths), dynamicPaths, o.Keys)
    {
      ok, typedColumns := AppendTyped(cfg, typedColumns, o, objs);
      if !ok { return; }
      var d;
      ok, d := AppendDynamic(cfg, rows, o, Dynamics(dynamicPaths, dynamicPathsIndex, dynamicColumns), objs);
      if !ok { return; }
      dynamicPaths, dynamicPathsIndex, dynamicColumns, totalDynamicPaths := d.paths, d.index, d.cols, |d.paths|;
      rows := rows + 1;
    }

    method AppendRowString(v: Option<Any>) returns (ok: bool)
      modifies this`rows, this`strings
      ensures ok == (v.None? || cfg.text(v.value).Some?)
      ensures ok ==> rows == old(rows) + 1
      ensures ok ==> strings == old(strings) + [if v.None? then cfg.nullText else cfg.text(v.value).value]
      ensures !ok ==> unchanged(this)
    {
      if v.None? {
        strings := strings + [cfg.nullText];
      } else {
        var w := cfg.text(v.value);
        if w.None? { return false; }
        strings := strings + [w.value];
      }
      rows := rows + 1;
      ok := true;
    }

    /** Nothing is stored yet; all rows are nulls that wait for a mode. */
    ghost predicate Waiting()
      reads this
    {
      && rows == pendingNullRows == |log| && (forall r | 0 <= r < |log| :: log[r] == NullRow)
      && ColumnsHeld([]) && strings == []
    }

    method FlushObjects(pending: nat) returns (ok: bool)
      requires ColumnsHeld([]) && rows == 0
      modifies this`rows, this`typedColumns, this`dynamicPaths, this`dynamicPathsIndex, this`dynamicColumns,
        this`totalDynamicPaths
      ensures ok == (pending == 0 || EntryFits(cfg, ObjectMode, NullRow))
      ensures ok ==>
        ColumnsHeld(seq(pending, _ => map[])) && rows == pending && Grown(old(dynamicPaths), dynamicPaths, {})
    {
      var i := 0;
      ghost var objs: seq<Object> := [];
      while i < pending
        invariant 0 <= i <= pending && rows == i && ColumnsHeld(objs) && objs == seq(i, _ => map[])
        invariant i > 0 ==> EntryFits(cfg, ObjectMode, NullRow)
        invariant Grown(old(dynamicPaths), dynamicPaths, {})
      {
        ok := AppendRowObject(map[], objs);
        if !ok { return; }
        objs := objs + [map[]];
        i := i + 1;
      }
      ok := true;
    }

    method FlushStrings(pending: nat)
      requires strings == [] && rows == 0
      modifies this`rows, this`strings
      ensures strings == seq(pending, _ => cfg.nullText) && rows == pending
    {
      var i := 0;
      while i < pending
        invariant 0 <= i <= pending && rows == i && strings == seq(i, _ => cfg.nullText)
      {
        var ok := AppendRowString(None);
        i := i + 1;
      }
    }

    /** The waiting nulls go to the backing of the latched mode. */
    method FlushPendingNulls() returns (ok: bool)
      requires Waiting() && mode != Unset
      modifies this`rows, this`pendingNullRows, this`strings, this`typedColumns, this`dynamicPaths,
        this`dynamicPathsIndex, this`dynamicColumns, this`totalDynamicPaths
      ensures ok == (old(pendingNullRows) == 0 || EntryFits(cfg, mode, NullRow))
      ensures ok ==> Valid() && Grown(old(dynamicPaths), dynamicPaths, {})
    {
      if pendingNullRows == 0 { return true; }
      var pending := pendingNullRows;
      pendingNullRows := 0;
      rows := rows - pending;
      if mode == ObjectMode {
        ok := FlushObjects(pending);
        assert Objects(log) == seq(pending, _ => map[]);
      } else {
        FlushStrings(pending);
        ok := true;
      }
    }

    /** Latches the mode of the first row that has one; a later row that disagrees is rejected. */
    method ReconcileMode(v: Input) returns (r: Outcome)
      requires Valid()
      modifies this
      ensures r == if Conflicts(old(mode), v) then Conflict
        else if old(mode) == Unset && Wants(v).Some? && old(rows) > 0 && !EntryFits(cfg, Wants(v).value, NullRow)
        then Refused
        else Appended
      ensures r == Conflict ==> unchanged(this)
      ensures r == Appended ==>
        Valid() && mode == Latched(old(mode), v) && log == old(log) && Grown(old(dynamicPaths), dynamicPaths, {})
    {
      var want := Wants(v);
      if want.None? { return Appended; }
      if mode == Unset {
        mode := want.value;
        var ok := FlushPendingNulls();
        return if ok then Appended else Refused;
      }
      r := if mode == want.value then Appended else Conflict;
    }

    method AppendRow(v: Input) returns (r: Outcome)
      requires Valid()
      modifies this
      ensures r == Unclassified <==> v == Unsupported
      ensures r == Conflict <==> v != Unsupported && Conflicts(old(mode), v)
      ensures r == Appended <==> v != Unsupported && !Conflicts(old(mode), v) && Accepts(cfg, old(mode), old(rows), v)
      ensures r == Unclassified || r == Conflict ==> unchanged(this)
      ensures r == Appended ==> Valid() && mode == Latched(old(mode), v) && log == old(log) + [Entered(mode, v)]
      ensures r == Appended ==> Grown(old(dynamicPaths), dynamicPaths, PathsOf(v))
    {
      if v == Unsupported { return Unclassified; }
      if Wants(v) == None && mode == Unset {
        pendingNullRows := pendingNullRows + 1;
        rows := rows + 1;
        log := log + [NullRow];
        return Appended;
      }
      r := ReconcileMode(v);
      if r != Appended { return; }
      var ok := AppendLatched(v);
      r := if ok then Appended else Refused;
    }

    method AppendLatched(v: Input) returns (ok: bool)
      requires Valid() && v != Unsupported && mode != Unset && (Wants(v).Some? ==> Wants(v).value == mode)
      modifies this
      ensures mode == old(mode) && ok == (v != BadObj && EntryFits(cfg, mode, Entered(mode, v)))
      ensures ok ==>
        Valid() && log == old(log) + [Entered(mode, v)] && Grown(old(dynamicPaths), dynamicPaths, PathsOf(v))
    {
      if mode == ObjectMode {
        if v == BadObj { return false; }
        ObjectsSnoc(log, Entered(mode, v));
        ok := AppendRowObject(if v.Obj? then v.o else map[], Objects(log));
      } else {
        ok := AppendRowString(if v.Text? || v.NilAny? then Some(v.v) else None);
      }
      if ok { log := log + [Entered(mode, v)]; }
    }

    /** A column of nothing but nulls becomes a text column now. The object header lists the paths. */
    method WriteStatePrefix() returns (ok: bool, header: seq<Token>)
      requires Valid()
      modifies this
      ensures ok && Valid() && log == old(log) && Grown(old(dynamicPaths), dynamicPaths, {})
      ensures mode == if old(mode) == Unset && rows > 0 then StringMode else old(mode)
      ensures header == if mode == ObjectMode
        then [Number(OBJECT_VERSION), Number(|dynamicPaths|)] + Texts(dynamicPaths) else [Number(STRING_VERSION)]
    {
      if mode == Unset && pendingNullRows > 0 {
        mode := StringMode;
        ok := FlushPendingNulls();
      }
      ok := true;
      if mode == ObjectMode {
        header := [Number(OBJECT_VERSION), Number(totalDynamicPaths)] + Texts(dynamicPaths);
      } else {
        header := [Number(STRING_VERSION)];
      }
    }

    /** Clears the backing of the latched mode; the other one is empty. Known paths stay known. */
    method Reset()
      requires Valid()
      modifies this
      ensures Valid() && mode == Unset && log == [] && rows == 0 && strings == [] && dynamicPaths == old(dynamicPaths)
      ensures forall t | 0 <= t < |typedColumns| :: typedColumns[t] == []
      ensures forall k | 0 <= k < |dynamicColumns| :: dynamicColumns[k] == []
    {
      rows, pendingNullRows := 0, 0;
      if mode == ObjectMode {
        typedColumns := seq(|typedColumns|, _ => []);
        dynamicColumns := seq(|dynamicColumns|, _ => []);
      } else if mode == StringMode {
        strings := [];
      }
      mode := Unset;
      log := [];
    }

    /** Row `r` put together again from the columns. */
    method RowAsJson(r: nat) returns (row: map<string, Option<Stored>>)
      requires Valid() && mode == ObjectMode && r < rows
      ensures TypedShown(cfg, |cfg.typedPaths|, ObjectOf(log[r]), row)
      ensures DynamicShown(cfg, dynamicPaths, ObjectOf(log[r]), row)
      ensures forall p | p in row :: p in dynamicPaths || p in cfg.typedPaths
    {
      row := ReadTyped(cfg, typedColumns, r, Objects(log));
      row := ReadDynamic(cfg, row, Dynamics(dynamicPaths, dynamicPathsIndex, dynamicColumns), r, Objects(log));
    }
  }

  // ---------------------------------------------------------------- reading rows

  /** The row shows what the first `n` typed columns keep, the last one of a path if it repeats. */
  ghost predicate TypedShown(cfg: Config, n: nat, o: Object, row: map<string, Option<Stored>>)
    requires n <= |cfg.typedPaths|
  {
    forall t | 0 <= t < n && LastOf(cfg.typedPaths, t, n) :: cfg.typedPaths[t] in row
      && row[cfg.typedPaths[t]] == cfg.typed(t, ValueAt(o, cfg.typedPaths[t]))
  }

  ghost predicate LastOf(paths: seq<string>, t: nat, n: nat)
    requires t < n <= |paths|
  {
    forall u | t < u < n :: paths[u] != paths[t]
  }

  ghost predicate DynamicShown(cfg: Config, paths: seq<string>, o: Object, row: map<string, Option<Stored>>) {
    forall k | 0 <= k < |paths| :: paths[k] in row && row[paths[k]] == Cell(cfg, o, paths[k])
  }

  method ReadTyped(cfg: Config, cols: seq<seq<Stored>>, r: nat, ghost objs: seq<Object>)
      returns (row: map<string, Option<Stored>>)
    requires TypedHeld(cfg, objs, cols) && r < |objs|
    ensures TypedShown(cfg, |cfg.typedPaths|, objs[r], row)
    ensures forall p | p in row :: p in cfg.typedPaths
  {
    row := map[];
    var t := 0;
    while t < |cfg.typedPaths|
      invariant 0 <= t <= |cfg.typedPaths| && TypedShown(cfg, t, objs[r], row)
      invariant forall p | p in row :: p in cfg.typedPaths
    {
      assert TypedColumn(cfg, objs, t, cols[t]);
      TypedShownStep(cfg, t, objs[r], row, cols[t][r]);
      row := row[cfg.typedPaths[t] := Some(cols[t][r])];
      t := t + 1;
    }
  }

  lemma TypedShownStep(cfg: Config, t: nat, o: Object, row: map<string, Option<Stored>>, w: Stored)
    requires t < |cfg.typedPaths| && TypedShown(cfg, t, o, row)
    requires cfg.typed(t, ValueAt(o, cfg.typedPaths[t])) == Some(w)
    ensures TypedShown(cfg, t + 1, o, row[cfg.typedPaths[t] := Some(w)])
  {
  }

  method ReadDynamic(cfg: Config, start: map<string, Option<Stored>>, d: Dynamics, r: nat, ghost objs: seq<Object>)
      returns (row: map<string, Option<Stored>>)
    requires PathsHeld(cfg, objs, d) && r < |objs| && TypedShown(cfg, |cfg.typedPaths|, objs[r], start)
    ensures DynamicShown(cfg, d.paths, objs[r], row) && TypedShown(cfg, |cfg.typedPaths|, objs[r], row)
    ensures forall p | p in row :: p in start || p in d.paths
  {
    row := start;
    var k := 0;
    while k < |d.paths|
      invariant 0 <= k <= |d.paths| && DynamicShown(cfg, d.paths[..k], objs[r], row)
      invariant TypedShown(cfg, |cfg.typedPaths|, objs[r], row)
      invariant forall p | p in row :: p in start || p in d.paths
    {
      assert DynamicColumn(cfg, objs, d.paths[k], d.cols[k]);
      DynamicShownStep(cfg, d.paths, d.index, k, objs[r], row);
      row := row[d.paths[k] := d.cols[k][r]];
      k := k + 1;
    }
    assert d.paths[..k] == d.paths;
  }

  lemma DynamicShownStep(cfg: Config, paths: seq<string>, index: map<string, nat>, k: nat, o: Object,
                         row: map<string, Option<Stored>>)
    requires k < |paths| && Indexed(cfg, paths, index)
    requires DynamicShown(cfg, paths[..k], o, row) && TypedShown(cfg, |cfg.typedPaths|, o, row)
    ensures var row' := row[paths[k] := Cell(cfg, o, paths[k])];
      DynamicShown(cfg, paths[..k + 1], o, row') && TypedShown(cfg, |cfg.typedPaths|, o, row')
  {
  }

  const STRING_VERSION: int := 1
  const OBJECT_VERSION: int := 3

  lemma ObjectsSnoc(log: seq<Entry>, e: Entry)
    ensures Objects(log + [e]) == Objects(log) + [ObjectOf(e)]
  {
  }
}
