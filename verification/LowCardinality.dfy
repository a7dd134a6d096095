/** Dictionary-encoded columns (lib/column/lowcardinality.go): a dictionary of distinct values,
    one key per row, and the choice of the key width. */
module LowCardinality {
  import opened Base
  import opened Native

  const UPDATE_ALL: int := 0x600
  const MAX_UINT8: int := 0xFF
  const MAX_UINT16: int := 0xFFFF
  const MAX_UINT32: int := 0xFFFF_FFFF

  /** What the leaf column and Go's map do with appended values: how a value is cut before it is
      looked up, whether it equals itself (a NaN does not), what the leaf stores for it. */
  datatype Leaf = Leaf(cut: Any -> Any, regular: Any -> bool, store: Any -> Option<Stored>, zero: Stored)

  /** The width selector of a dictionary with `n` map entries. */
  function KeyWidth(n: nat): (w: nat)
    ensures w <= 3
  {
    if n < MAX_UINT8 then 0 else if n < MAX_UINT16 then 1 else if n < MAX_UINT32 then 2 else 3
  }

  /** Conversion of a key to the unsigned type of a width. Keys are array indexes, so 64 bits hold them. */
  function Narrow(width: nat, k: nat): nat {
    if width == 0 then k % 0x100 else if width == 1 then k % 0x1_0000 else if width == 2 then k % 0x1_0000_0000 else k
  }

  /** The reserved slots at the front of a dictionary: the default, and null when there is one. */
  function Reserved(nullable: bool): nat {
    if nullable then 2 else 1
  }

  /** Every index of a dictionary of `n` values survives the width chosen for it. */
  lemma WidthHolds(n: nat, nullable: bool, k: nat)
    requires k < Reserved(nullable) + n
    ensures Narrow(KeyWidth(n), k) == k
  {
  }

  /** It is the narrowest that holds key `n + 1`, the last one of a nullable column. */
  lemma WidthNarrowest(n: nat, w: nat)
    requires w <= 3
    ensures w == KeyWidth(n) <==> Narrow(w, n + 1) == n + 1 && (w > 0 ==> Narrow(w - 1, n + 1) != n + 1)
  {
  }

  /** It is tight: at 254, 65534 and 2^32 - 2 values of a nullable column the last index is the
      largest the width has, and one value more takes the next width. */
  lemma WidthTight(n: nat)
    requires n == 254 || n == 65534 || n == 0xFFFF_FFFE
    ensures KeyWidth(n + 1) == KeyWidth(n) + 1
    ensures Narrow(KeyWidth(n), Reserved(true) + n - 1) == Reserved(true) + n - 1
    ensures Narrow(KeyWidth(n), Reserved(true) + n) == 0
  {
  }

  // ---------------------------------------------------------------- the dictionary

  /** The dictionary column and the map that finds values in it. `extra` counts map entries that can
      never be found again. */
  ghost predicate Dict(leaf: Leaf, nullable: bool, index: seq<Stored>, dict: map<Any, nat>, extra: nat) {
    if index == [] then dict == map[] && extra == 0
    else
      && (forall k | k in dict :: leaf.regular(k))
      && |index| == Reserved(nullable) + |dict| + extra && index[0] == leaf.zero
      && forall k | k in dict :: Reserved(nullable) <= dict[k] < |index| && leaf.store(k) == Some(index[dict[k]])
  }

  /** The key of a row means that row: 0 for a null, else the slot that holds its value. A value
      that does not equal itself is stored but its key is lost to 0. */
  ghost predicate Means(leaf: Leaf, nullable: bool, index: seq<Stored>, row: Option<Any>, key: nat) {
    if row.Some? && leaf.regular(leaf.cut(row.value)) then
      Reserved(nullable) <= key < |index| && leaf.store(leaf.cut(row.value)) == Some(index[key])
    else key == 0 && 0 < |index|
  }

  ghost predicate AllMean(leaf: Leaf, nullable: bool, index: seq<Stored>, rows: seq<Option<Any>>, keys: seq<nat>) {
    && |keys| == |rows|
    && forall i | 0 <= i < |rows| :: Means(leaf, nullable, index, rows[i], keys[i])
  }

  /** A new value that will not. */
  lemma DictLoses(leaf: Leaf, nullable: bool, index: seq<Stored>, dict: map<Any, nat>, extra: nat, w: Stored)
    requires Dict(leaf, nullable, index, dict, extra) && index != []
    ensures Dict(leaf, nullable, index + [w], dict, extra + 1)
  {
  }

  function Slots(leaf: Leaf, nullable: bool): (s: seq<Stored>)
    ensures |s| == Reserved(nullable)
  {
    if nullable then [leaf.zero, leaf.zero] else [leaf.zero]
  }

  /** The dictionary with its reserved slots filled. */
  function Opened(leaf: Leaf, nullable: bool, index: seq<Stored>): seq<Stored> {
    if index == [] then Slots(leaf, nullable) else index
  }

  // ---------------------------------------------------------------- which values it has, and where

  /** Row `i` brings a value that no row before it has. One that does not equal itself always does. */
  ghost predicate Brings(leaf: Leaf, rows: seq<Option<Any>>, i: nat)
    requires i < |rows|
  {
    rows[i].Some? &&
    var v := leaf.cut(rows[i].value);
    leaf.regular(v) ==> forall j | 0 <= j < i :: rows[j].Some? ==> leaf.cut(rows[j].value) != v
  }

  /** `from` lists the rows that bring a value, in order, and `vals` the values they bring. */
  ghost predicate Firsts(leaf: Leaf, rows: seq<Option<Any>>, from: seq<nat>, vals: seq<Any>) {
    && |vals| == |from|
    && (forall k | 0 <= k < |from| ::
          from[k] < |rows| && Brings(leaf, rows, from[k]) && vals[k] == leaf.cut(rows[from[k]].value))
    && (forall k, l | 0 <= k < l < |from| :: from[k] < from[l])
    && forall i | 0 <= i < |rows| :: Brings(leaf, rows, i) ==> i in from
  }

  /** The dictionary: the default in the reserved slots, then each value where a row first brings it. */
  ghost predicate Entries(leaf: Leaf, nullable: bool, vals: seq<Any>, index: seq<Stored>) {
    && |index| == Reserved(nullable) + |vals|
    && (forall i | 0 <= i < Reserved(nullable) :: index[i] == leaf.zero)
    && forall k | 0 <= k < |vals| :: leaf.store(vals[k]) == Some(index[Reserved(nullable) + k])
  }

  /** The key of the entry for a value. */
  ghost predicate Points(nullable: bool, vals: seq<Any>, v: Any, key: nat) {
    Reserved(nullable) <= key < Reserved(nullable) + |vals| && vals[key - Reserved(nullable)] == v
  }

  /** A row's key: 0 for a null or a value that equals nothing, else that of its value. */
  ghost predicate KeyIs(leaf: Leaf, nullable: bool, vals: seq<Any>, row: Option<Any>, key: nat) {
    if row.Some? && leaf.regular(leaf.cut(row.value)) then Points(nullable, vals, leaf.cut(row.value), key)
    else key == 0
  }

  ghost predicate KeysAre(leaf: Leaf, nullable: bool, vals: seq<Any>, rows: seq<Option<Any>>, keys: seq<nat>) {
    |keys| == |rows| && forall i | 0 <= i < |rows| :: KeyIs(leaf, nullable, vals, rows[i], keys[i])
  }

  /** The append map finds every value that equals itself at its entry. */
  ghost predicate Finds(leaf: Leaf, nullable: bool, vals: seq<Any>, rows: seq<Option<Any>>, dict: map<Any, nat>) {
    && (forall v | v in dict :: Points(nullable, vals, v, dict[v]))
    && forall i | 0 <= i < |rows| ::
         rows[i].Some? && leaf.regular(leaf.cut(rows[i].value)) ==> leaf.cut(rows[i].value) in dict
  }

  ghost predicate Built(leaf: Leaf, nullable: bool, rows: seq<Option<Any>>, from: seq<nat>, vals: seq<Any>,
                        index: seq<Stored>, dict: map<Any, nat>, keys: seq<nat>) {
    Dictionary(leaf, nullable, rows, from, vals, index, keys) && Finds(leaf, nullable, vals, rows, dict)
  }

  /** A dictionary and its keys, as they follow from the rows. */
  ghost predicate Dictionary(leaf: Leaf, nullable: bool, rows: seq<Option<Any>>, from: seq<nat>, vals: seq<Any>,
                             index: seq<Stored>, keys: seq<nat>) {
    && Firsts(leaf, rows, from, vals) && Entries(leaf, nullable, vals, index)
    && KeysAre(leaf, nullable, vals, rows, keys)
  }

  /** And the keys take the width that the number of entries asks for. */
  ghost predicate Right(leaf: Leaf, nullable: bool, rows: seq<Option<Any>>, width: nat, index: seq<Stored>,
                        keys: seq<nat>) {
    exists from, vals ::
      Dictionary(leaf, nullable, rows, from, vals, index, keys) && width == KeyWidth(|vals|)
  }

  /** A column on the stream: additional keys and a dictionary update in the flags, with the width of the keys. */
  ghost predicate OnStream(width: nat, index: seq<Stored>, keys: seq<nat>, ts: seq<Token>) {
    var n, m := |index|, |keys|;
    && |ts| == n + m + 3 && ts[0] == Number(0x600 + width) && ts[1] == Number(n) && ts[2 + n] == Number(m)
    && (forall i | 0 <= i < n :: ts[2 + i] == Value(index[i]))
    && forall i | 0 <= i < m :: ts[3 + n + i] == Key(width, keys[i])
  }

  predicate Takes(leaf: Leaf, row: Option<Any>) {
    row.Some? ==> leaf.store(leaf.cut(row.value)).Some?
  }

  predicate Storable(leaf: Leaf, rows: seq<Option<Any>>) {
    forall i | 0 <= i < |rows| :: Takes(leaf, rows[i])
  }

  /** What a successful append does to the dictionary and its map, and the key it leaves. */
  function Adding(leaf: Leaf, index: seq<Stored>, dict: map<Any, nat>, row: Option<Any>)
      : (seq<Stored>, map<Any, nat>, nat)
    requires Takes(leaf, row)
  {
    if row.None? then (index, dict, 0)
    else
      var v := leaf.cut(row.value);
      if !leaf.regular(v) then (index + [leaf.store(v).value], dict, 0)
      else if v in dict then (index, dict, dict[v])
      else (index + [leaf.store(v).value], dict[v := |index|], |index|)
  }

  /** Whether a row brings a value does not depend on the rows behind it. */
  lemma BringsBefore(leaf: Leaf, rows: seq<Option<Any>>, row: Option<Any>, i: nat)
    requires i < |rows|
    ensures Brings(leaf, rows + [row], i) == Brings(leaf, rows, i)
  {
    var more := rows + [row];
    assert forall j | 0 <= j <= i :: more[j] == rows[j];
  }

  lemma FirstsSnoc(leaf: Leaf, rows: seq<Option<Any>>, from: seq<nat>, vals: seq<Any>, row: Option<Any>,
                   from': seq<nat>, vals': seq<Any>)
    requires Firsts(leaf, rows, from, vals)
    requires from' == from + if Brings(leaf, rows + [row], |rows|) then [|rows|] else []
    requires vals' == vals + if Brings(leaf, rows + [row], |rows|) then [leaf.cut(row.value)] else []
    ensures Firsts(leaf, rows + [row], from', vals')
  {
    var more := rows + [row];
    forall i | 0 <= i < |rows| ensures Brings(leaf, more, i) == Brings(leaf, rows, i) {
      BringsBefore(leaf, rows, row, i);
    }
    forall i | 0 <= i < |more| && Brings(leaf, more, i) ensures i in from' {
      if i < |rows| {
        var k :| 0 <= k < |from| && from[k] == i;
        assert from'[k] == i;
      } else {
        assert from'[|from|] == i;
      }
    }
  }

  /** The map does not find the row's value. */
  ghost predicate New(leaf: Leaf, dict: map<Any, nat>, row: Option<Any>) {
    row.Some? && (leaf.regular(leaf.cut(row.value)) ==> leaf.cut(row.value) !in dict)
  }

  /** No value gets a second entry: whether a row brings one is whether the map lacks it. */
  lemma BringsIff(leaf: Leaf, nullable: bool, rows: seq<Option<Any>>, from: seq<nat>, vals: seq<Any>,
                  dict: map<Any, nat>, row: Option<Any>)
    requires Firsts(leaf, rows, from, vals) && Finds(leaf, nullable, vals, rows, dict)
    ensures Brings(leaf, rows + [row], |rows|) == New(leaf, dict, row)
  {
    var more := rows + [row];
    assert forall j | 0 <= j < |rows| :: more[j] == rows[j];
    if row.Some? && leaf.regular(leaf.cut(row.value)) && leaf.cut(row.value) in dict {
      var v := leaf.cut(row.value);
      assert Points(nullable, vals, v, dict[v]);
      var j := from[dict[v] - Reserved(nullable)];
      assert more[j].Some? && leaf.cut(more[j].value) == v;
    }
  }

  lemma BuiltSnoc(leaf: Leaf, nullable: bool, rows: seq<Option<Any>>, from: seq<nat>, vals: seq<Any>,
                  index: seq<Stored>, dict: map<Any, nat>, keys: seq<nat>, row: Option<Any>, index': seq<Stored>,
                  dict': map<Any, nat>, key: nat)
      returns (from': seq<nat>, vals': seq<Any>)
    requires Built(leaf, nullable, rows, from, vals, index, dict, keys)
    requires Takes(leaf, row) && Adding(leaf, index, dict, row) == (index', dict', key)
    ensures Built(leaf, nullable, rows + [row], from', vals', index', dict', keys + [key])
  {
    var brings := Brings(leaf, rows + [row], |rows|);
    from' := from + if brings then [|rows|] else [];
    vals' := vals + if brings then [leaf.cut(row.value)] else [];
    FirstsSnoc(leaf, rows, from, vals, row, from', vals');
    BringsIff(leaf, nullable, rows, from, vals, dict, row);
    EntriesSnoc(leaf, nullable, vals, index, dict, row, index', dict', key, vals');
    FindsSnoc(leaf, nullable, rows, vals, index, dict, row, index', dict', key, vals');
    KeysSnoc(leaf, nullable, rows, vals, row, vals', keys, key);
  }

  lemma EntriesSnoc(leaf: Leaf, nullable: bool, vals: seq<Any>, index: seq<Stored>, dict: map<Any, nat>,
                    row: Option<Any>, index': seq<Stored>, dict': map<Any, nat>, key: nat, vals': seq<Any>)
    requires Entries(leaf, nullable, vals, index)
    requires Takes(leaf, row) && Adding(leaf, index, dict, row) == (index', dict', key)
    requires vals' == vals + if New(leaf, dict, row) then [leaf.cut(row.value)] else []
    ensures Entries(leaf, nullable, vals', index')
  {
  }

  lemma FindsSnoc(leaf: Leaf, nullable: bool, rows: seq<Option<Any>>, vals: seq<Any>, index: seq<Stored>,
                  dict: map<Any, nat>, row: Option<Any>, index': seq<Stored>, dict': map<Any, nat>, key: nat,
                  vals': seq<Any>)
    requires |index| == Reserved(nullable) + |vals| && Finds(leaf, nullable, vals, rows, dict)
    requires Takes(leaf, row) && Adding(leaf, index, dict, row) == (index', dict', key)
    requires vals' == vals + if New(leaf, dict, row) then [leaf.cut(row.value)] else []
    ensures Finds(leaf, nullable, vals', rows + [row], dict') && KeyIs(leaf, nullable, vals', row, key)
  {
    forall v | v in dict ensures Points(nullable, vals', v, dict[v]) { assert Points(nullable, vals, v, dict[v]); }
  }

  lemma KeysSnoc(leaf: Leaf, nullable: bool, rows: seq<Option<Any>>, vals: seq<Any>, row: Option<Any>, vals': seq<Any>,
                 keys: seq<nat>, key: nat)
    requires KeysAre(leaf, nullable, vals, rows, keys) && vals <= vals' && KeyIs(leaf, nullable, vals', row, key)
    ensures KeysAre(leaf, nullable, vals', rows + [row], keys + [key])
  {
    forall i | 0 <= i < |rows| ensures KeyIs(leaf, nullable, vals', rows[i], keys[i]) {
      assert KeyIs(leaf, nullable, vals, rows[i], keys[i]);
    }
  }

  /** The dictionary, its map and the keys after appending all rows. */
  function After(leaf: Leaf, nullable: bool, rows: seq<Option<Any>>): (seq<Stored>, map<Any, nat>, seq<nat>)
    requires Storable(leaf, rows)
  {
    if rows == [] then (Slots(leaf, nullable), map[], [])
    else
      var n := |rows| - 1;
      var (index, dict, keys) := After(leaf, nullable, rows[..n]);
      var (index', dict', key) := Adding(leaf, index, dict, rows[n]);
      (index', dict', keys + [key])
  }

  lemma {:induction false} AfterBuilt(leaf: Leaf, nullable: bool, rows: seq<Option<Any>>)
      returns (from: seq<nat>, vals: seq<Any>)
    requires Storable(leaf, rows)
    ensures var (index, dict, keys) := After(leaf, nullable, rows);
      Built(leaf, nullable, rows, from, vals, index, dict, keys)
  {
    if rows == [] {
      from, vals := [], [];
    } else {
      var n := |rows| - 1;
      from, vals := AfterBuilt(leaf, nullable, rows[..n]);
      var (index, dict, keys) := After(leaf, nullable, rows[..n]);
      var (index', dict', key) := Adding(leaf, index, dict, rows[n]);
      from, vals := BuiltSnoc(leaf, nullable, rows[..n], from, vals, index, dict, keys, rows[n], index', dict', key);
      assert rows[..n] + [rows[n]] == rows;
    }
  }

  // ---------------------------------------------------------------- the stream

  /** A column on the stream under the given flags, whose low byte is the key width. */
  function Frame(flags: nat, index: seq<Stored>, keys: seq<nat>): seq<Token> {
    [Number(flags), Number(|index|)] + Values(index) + [Number(|keys|)] + KeyTokens(flags % 0x100, keys)
  }

  datatype DecodeError = UnexpectedToken | InvalidIndexVersion | GlobalDictionary | MissingAdditionalKeys

  /** Bit 8 of the flags, for a global dictionary, and bit 9, for additional keys, in their places. */
  function GlobalDictionaryBit(n: nat): nat {
    n / 0x100 % 2 * 0x100
  }

  function AdditionalKeysBit(n: nat): nat {
    n / 0x200 % 2 * 0x200
  }

  predicate Flagged(ts: seq<Token>) {
    |ts| > 0 && ts[0].Number? && ts[0].n >= 0
  }

  /** A known key width and the bit for additional keys. Bit 8, for a global dictionary, is not asked for:
      the test for it compares with 1. */
  predicate Accepts(flags: nat) {
    flags % 0x100 <= 3 && AdditionalKeysBit(flags) != 0
  }

  /** Behind the flags stand a count and as many values, and a count and as many keys of the width. */
  ghost predicate Readable(ts: seq<Token>, width: nat) {
    |ts| >= 2 && ts[1].Number? && ts[1].n >= 0 &&
    var next := 2 + ts[1].n;
    next < |ts| && (forall i | 2 <= i < next :: ts[i].Value?) &&
    ts[next].Number? && ts[next].n >= 0 &&
    var end := next + 1 + ts[next].n;
    end <= |ts| && forall i | next + 1 <= i < end :: ts[i].Key? && ts[i].width == width
  }

  /** The answer to a stream: one that asks for a global dictionary is not refused on that ground. */
  ghost predicate Verdict(ts: seq<Token>, r: Option<DecodeError>) {
    && (r == None <==> Flagged(ts) && Accepts(ts[0].n) && Readable(ts, ts[0].n % 0x100))
    && (r.Some? && r.value.InvalidIndexVersion? <==> Flagged(ts) && ts[0].n % 0x100 > 3)
    && (r.Some? && r.value.MissingAdditionalKeys? <==>
        Flagged(ts) && ts[0].n % 0x100 <= 3 && AdditionalKeysBit(ts[0].n) == 0)
    && (r.Some? ==> !r.value.GlobalDictionary?)
  }

  lemma FrameParts(ts: seq<Token>, flags: nat, index: seq<Stored>, keys: seq<nat>)
    requires Frame(flags, index, keys) <= ts
    ensures Flagged(ts) && ts[0].n == flags && |ts| >= 3 + |index| + |keys|
    ensures ts[1] == Number(|index|) && ts[2..2 + |index|] == Values(index)
    ensures ts[2 + |index|] == Number(|keys|)
    ensures ts[3 + |index|..3 + |index| + |keys|] == KeyTokens(flags % 0x100, keys)
  {
  }

  /** A column on the stream is readable. */
  lemma FrameReadable(ts: seq<Token>, flags: nat, index: seq<Stored>, keys: seq<nat>)
    requires Frame(flags, index, keys) <= ts
    ensures Readable(ts, flags % 0x100)
  {
    FrameParts(ts, flags, index, keys);
    var next := 2 + |index|;
    forall i | 2 <= i < next ensures ts[i].Value? { assert ts[2..next][i - 2] == Values(index)[i - 2]; }
    KeysReadable(ts, next + 1, flags % 0x100, keys);
  }

  /** There is only one way to read it. */
  lemma FrameUnique(ts: seq<Token>, flags: nat, index: seq<Stored>, keys: seq<nat>, index': seq<Stored>,
                    keys': seq<nat>)
    requires Frame(flags, index, keys) <= ts && Frame(flags, index', keys') <= ts
    ensures index' == index && keys' == keys
  {
    FrameParts(ts, flags, index, keys);
    FrameParts(ts, flags, index', keys');
    ValuesInjective(index, index');
    KeysInjective(flags % 0x100, keys, keys');
  }

  // ---------------------------------------------------------------- the column

  class Column {
    const leaf: Leaf
    const nullable: bool
    var key: nat
    var rows: nat
    var index: seq<Stored>
    var keys: seq<nat>             // the key column of width `key`; the other three are empty
    var appendKeys: seq<nat>
    var appendIndex: map<Any, nat>
    var lostEntries: nat           // entries of the append map under keys that equal nothing

    ghost var stale: nat           // dictionary slots left by an earlier encode
    ghost var appended: seq<Option<Any>>

    constructor (leaf: Leaf, nullable: bool)
      ensures this.leaf == leaf && this.nullable == nullable && fresh(this)
      ensures Appending() && appended == [] && key == 0 && index == []
    {
      this.leaf, this.nullable := leaf, nullable;
      key, rows, index, keys := 0, 0, [], [];
      appendKeys, appendIndex, lostEntries, stale, appended := [], map[], 0, 0, [];
    }

    ghost predicate Ready()
      reads this
    {
      key <= 3 && Dict(leaf, nullable, index, appendIndex, lostEntries + stale) && (rows > 0 ==> index != [])
    }

    /** Rows are being appended to an empty or reset column. */
    ghost predicate Appending()
      reads this
    {
      && Ready() && stale == 0 && keys == [] && rows == |appended|
      && AllMean(leaf, nullable, index, appended, appendKeys)
    }

    method Reset()
      requires key <= 3
      modifies this
      ensures Appending() && appended == [] && key == old(key)
    {
      rows, index, keys := 0, [], [];
      appendIndex, lostEntries, appendKeys := map[], 0, [];
      stale, appended := 0, [];
    }

    /** Adds a value to the dictionary unless the map finds it; false when the leaf refuses it. */
    method Remember(v: Any) returns (ok: bool)
      requires Ready() && index != []
      modifies this`index, this`appendIndex, this`lostEntries
      ensures Ready() && old(index) <= index
      ensures ok <==> leaf.store(v).Some?
      ensures ok && leaf.regular(v) ==> v in appendIndex
      ensures !ok || (leaf.regular(v) && v in old(appendIndex)) ==>
        index == old(index) && appendIndex == old(appendIndex) && lostEntries == old(lostEntries)
      ensures ok && !(leaf.regular(v) && v in old(appendIndex)) ==>
        && index == old(index) + [leaf.store(v).value]
        && appendIndex == if leaf.regular(v) then old(appendIndex)[v := old(|index|)] else old(appendIndex)
    {
      if leaf.regular(v) && v in appendIndex { return true; }
      if leaf.store(v).None? { return false; }
      var w := leaf.store(v).value;
      if leaf.regular(v) {
        appendIndex := appendIndex[v := |index|];
      } else {
        DictLoses(leaf, nullable, index, appendIndex, lostEntries + stale, w);
        lostEntries := lostEntries + 1;
      }
      index := index + [w];
      ok := true;
    }

    /** The key under which a value is found again, adding it if needed. */
    method KeyOf(x: Any) returns (ok: bool, k: nat)
      requires Ready() && index != []
      modifies this`index, this`appendIndex, this`lostEntries
      ensures Ready() && old(index) <= index && (ok <==> leaf.store(leaf.cut(x)).Some?)
      ensures ok ==> Means(leaf, nullable, index, Some(x), k)
      ensures ok ==> (index, appendIndex, k) == Adding(leaf, old(index), old(appendIndex), Some(x))
      ensures !ok ==> index == old(index) && appendIndex == old(appendIndex)
    {
      var v := leaf.cut(x);
      ok := Remember(v);
      k := if ok && leaf.regular(v) then appendIndex[v] else 0;
    }

    /** Fills the reserved slots before the first row. */
    method Init()
      requires key <= 3 && Dict(leaf, nullable, index, appendIndex, lostEntries + stale)
      modifies this`index
      ensures Ready() && index == Opened(leaf, nullable, old(index)) && old(index) <= index
    {
      if index == [] {
        index := [leaf.zero];
        if nullable { index := index + [leaf.zero]; }
        assert index == Slots(leaf, nullable);
      }
    }

    /** A successful append adds one key that means the row. The row count goes up even on a failure. */
    method AppendRow(row: Option<Any>) returns (ok: bool, k: nat)
      requires Ready()
      modifies this`rows, this`index, this`appendKeys, this`appendIndex, this`lostEntries, this`appended
      ensures Ready() && rows == old(rows) + 1 && old(index) <= index
      ensures ok <==> row.None? || leaf.store(leaf.cut(row.value)).Some?
      ensures !ok ==> appendKeys == old(appendKeys)
      ensures ok ==> appendKeys == old(appendKeys) + [k] && Means(leaf, nullable, index, row, k)
      ensures ok ==> appended == old(appended) + [row]
      ensures ok ==>
        (index, appendIndex, k) == Adding(leaf, Opened(leaf, nullable, old(index)), old(appendIndex), row)
    {
      rows := rows + 1;
      Init();
      ok, k := true, 0;
      if row.Some? {
        ok, k := KeyOf(row.value);
        if !ok { return; }
      }
      appendKeys, appended := appendKeys + [k], appended + [row];
    }

    /** Keys that are already there are kept; otherwise the appended ones go into the narrowest
        column that the number of map entries allows. */
    method Encode() returns (ts: seq<Token>)
      requires Ready()
      modifies this`key, this`keys, this`appendKeys, this`appendIndex, this`lostEntries, this`stale
      ensures Ready()
      ensures rows == 0 ==> ts == [] && unchanged(this)
      ensures rows > 0 ==> ts == Frame(UPDATE_ALL + key, index, keys) && appendKeys == []
      ensures rows > 0 && old(keys) != [] ==> key == old(key) && keys == old(keys)
      ensures rows > 0 && old(keys) == [] ==> key == KeyWidth(old(|appendIndex| + lostEntries))
      ensures rows > 0 && old(keys) == [] ==> keys == NarrowAll(key, old(appendKeys))
    {
      if rows == 0 { return []; }
      if keys == [] { PickKeys(); }
      ts := Frame(UPDATE_ALL + key, index, keys);
      stale := stale + lostEntries + |appendIndex|;
      appendKeys, appendIndex, lostEntries := [], map[], 0;
    }

    method PickKeys()
      requires keys == []
      modifies this`key, this`keys
      ensures key == KeyWidth(|appendIndex| + lostEntries) && keys == NarrowAll(key, appendKeys)
    {
      key := KeyWidth(|appendIndex| + lostEntries);
      var i := 0;
      while i < |appendKeys|
        invariant 0 <= i <= |appendKeys| && keys == NarrowAll(key, appendKeys[..i])
        invariant key == KeyWidth(|appendIndex| + lostEntries)
      {
        keys := keys + [Narrow(key, appendKeys[i])];
        i := i + 1;
      }
      assert appendKeys[..i] == appendKeys;
    }

    /** Accepts exactly the readable streams whose flags it accepts, and then holds what is on the stream. */
    method Decode(ts: seq<Token>, rowCount: nat) returns (r: Option<DecodeError>)
      modifies this`key, this`index, this`rows, this`keys
      ensures rowCount == 0 ==> r == None && unchanged(this)
      ensures rowCount > 0 ==> Verdict(ts, r)
      ensures rowCount > 0 && r == None ==>
        key == ts[0].n % 0x100 && rows == |keys| && Frame(ts[0].n, index, keys) <= ts
    {
      if rowCount == 0 { return None; }
      if !Flagged(ts) { return Some(UnexpectedToken); }
      var flags := ts[0].n;
      key := flags % 0x100;
      if key > 3 { return Some(InvalidIndexVersion); }
      if GlobalDictionaryBit(flags) == 1 { return Some(GlobalDictionary); }
      if AdditionalKeysBit(flags) == 0 { return Some(MissingAdditionalKeys); }
      if |ts| < 2 || !ts[1].Number? { return Some(UnexpectedToken); }
      var ok;
      ok, index := ReadValues(ts, 2, ts[1].n);
      if !ok { return Some(UnexpectedToken); }
      var next := 2 + ts[1].n;
      if |ts| <= next || !ts[next].Number? { return Some(UnexpectedToken); }
      ok, keys := ReadKeys(ts, next + 1, ts[next].n, key);
      if !ok { return Some(UnexpectedToken); }
      rows := ts[next].n;
      FrameRead(ts, index, keys);
      r := None;
    }

    /** Row `i` as the driver hands it out. */
    function Row(i: nat): Option<Stored>
      requires i < |keys| && keys[i] < |index|
      reads this
    {
      if keys[i] == 0 && nullable then None else Some(index[keys[i]])
    }
  }

  function NarrowAll(width: nat, ks: seq<nat>): (r: seq<nat>)
    ensures |r| == |ks|
  {
    seq(|ks|, i requires 0 <= i < |ks| => Narrow(width, ks[i]))
  }

  /** The pieces that were read make up the start of the stream. */
  lemma FrameRead(ts: seq<Token>, index: seq<Stored>, keys: seq<nat>)
    requires Flagged(ts) && |ts| > 2 + |index| && ts[1] == Number(|index|) && At(ts, 2, Values(index))
    requires ts[2 + |index|] == Number(|keys|) && At(ts, 3 + |index|, KeyTokens(ts[0].n % 0x100, keys))
    ensures Frame(ts[0].n, index, keys) <= ts
  {
  }

  // ---------------------------------------------------------------- round trips

  /** What comes back for an appended row: its stored value; for a null, null or the default; and
      the same for a value that does not equal itself, whose key was lost. */
  function Expected(leaf: Leaf, nullable: bool, row: Option<Any>): Option<Stored> {
    if row.Some? && leaf.regular(leaf.cut(row.value)) then leaf.store(leaf.cut(row.value))
    else if nullable then None
    else Some(leaf.zero)
  }

  /** Narrowing the keys of a freshly appended column changes none of them. */
  lemma NarrowKeeps(leaf: Leaf, nullable: bool, index: seq<Stored>, dict: map<Any, nat>, extra: nat,
                    rows: seq<Option<Any>>, keys: seq<nat>)
    requires Dict(leaf, nullable, index, dict, extra) && AllMean(leaf, nullable, index, rows, keys)
    ensures NarrowAll(KeyWidth(|dict| + extra), keys) == keys
  {
    var w := KeyWidth(|dict| + extra);
    forall i | 0 <= i < |keys| ensures Narrow(w, keys[i]) == keys[i] {
      assert Means(leaf, nullable, index, rows[i], keys[i]);
      WidthHolds(|dict| + extra, nullable, keys[i]);
    }
  }

  /** The dictionary, the keys and their width are as appending the rows leaves them. */
  ghost predicate Leaves(leaf: Leaf, nullable: bool, rows: seq<Option<Any>>, width: nat, index: seq<Stored>,
                         keys: seq<nat>) {
    && Storable(leaf, rows) && After(leaf, nullable, rows).0 == index && After(leaf, nullable, rows).2 == keys
    && |index| >= Reserved(nullable) && width == KeyWidth(|index| - Reserved(nullable))
  }

  lemma LeavesRight(leaf: Leaf, nullable: bool, rows: seq<Option<Any>>, width: nat, index: seq<Stored>, keys: seq<nat>)
    requires Leaves(leaf, nullable, rows, width, index, keys)
    ensures Right(leaf, nullable, rows, width, index, keys)
  {
    var from, vals := AfterBuilt(leaf, nullable, rows);
    assert |vals| == |index| - Reserved(nullable);
  }

  lemma FrameOnStream(width: nat, index: seq<Stored>, keys: seq<nat>)
    requires width <= 3
    ensures OnStream(width, index, keys, Frame(0x600 + width, index, keys))
  {
    var ts := Frame(0x600 + width, index, keys);
    FrameParts(ts, 0x600 + width, index, keys);
    var n, m := |index|, |keys|;
    forall i | 0 <= i < n ensures ts[2 + i] == Value(index[i]) { assert ts[2..2 + n][i] == Values(index)[i]; }
    forall i | 0 <= i < m ensures ts[3 + n + i] == Key(width, keys[i]) {
      assert ts[3 + n..3 + n + m][i] == KeyTokens(width, keys)[i];
    }
  }

  /** Appends every row of a batch to an empty column. */
  method AppendAll(c: Column, rows: seq<Option<Any>>)
    requires c.Appending() && c.appended == [] && c.index == [] && Storable(c.leaf, rows)
    modifies c
    ensures c.Appending() && c.appended == rows && (c.index == [] <==> rows == [])
    ensures Appended(c, rows)
  {
    var i := 0;
    while i < |rows|
      invariant 0 <= i <= |rows| && c.Appending() && c.appended == rows[..i] && (c.index == [] <==> i == 0)
      invariant Appended(c, rows[..i])
    {
      AppendNext(c, rows, i);
      i := i + 1;
    }
    assert rows[..i] == rows;
  }

  method AppendNext(c: Column, rows: seq<Option<Any>>, i: nat)
    requires i < |rows| && c.Appending() && c.appended == rows[..i] && Storable(c.leaf, rows)
    requires Appended(c, rows[..i])
    modifies c
    ensures c.Appending() && c.appended == rows[..i + 1] && c.index != [] && Appended(c, rows[..i + 1])
  {
    ghost var index, dict, keys := c.index, c.appendIndex, c.appendKeys;
    var ok, k := c.AppendRow(rows[i]);
    MeanSnoc(c.leaf, c.nullable, index, c.index, rows, i, keys, k);
    AfterSnoc(c.leaf, c.nullable, rows, i, Opened(c.leaf, c.nullable, index), dict, keys);
  }

  /** The column is as appending all rows leaves it. */
  ghost predicate Appended(c: Column, rows: seq<Option<Any>>)
    reads c
  {
    && Storable(c.leaf, rows)
    && After(c.leaf, c.nullable, rows) == (Opened(c.leaf, c.nullable, c.index), c.appendIndex, c.appendKeys)
  }

  lemma MeanSnoc(leaf: Leaf, nullable: bool, index: seq<Stored>, index': seq<Stored>, rows: seq<Option<Any>>, i: nat,
                 keys: seq<nat>, k: nat)
    requires i < |rows| && AllMean(leaf, nullable, index, rows[..i], keys) && index <= index'
    requires Means(leaf, nullable, index', rows[i], k)
    ensures rows[..i] + [rows[i]] == rows[..i + 1] && AllMean(leaf, nullable, index', rows[..i + 1], keys + [k])
  {
    LongerMeans(leaf, nullable, index, index', rows[..i], keys);
  }

  lemma AfterSnoc(leaf: Leaf, nullable: bool, rows: seq<Option<Any>>, i: nat, index: seq<Stored>, dict: map<Any, nat>,
                  keys: seq<nat>)
    requires i < |rows| && Storable(leaf, rows) && After(leaf, nullable, rows[..i]) == (index, dict, keys)
    ensures var (index', dict', key) := Adding(leaf, index, dict, rows[i]);
      After(leaf, nullable, rows[..i + 1]) == (index', dict', keys + [key])
  {
    assert rows[..i + 1][..i] == rows[..i];
  }

  /** Reads every row of a column whose keys mean `rows`. */
  method ReadRows(d: Column, ghost rows: seq<Option<Any>>) returns (got: seq<Option<Stored>>)
    requires AllMean(d.leaf, d.nullable, d.index, rows, d.keys)
    requires rows != [] ==> d.index != [] && d.index[0] == d.leaf.zero
    ensures |got| == |rows| && forall i | 0 <= i < |rows| :: got[i] == Expected(d.leaf, d.nullable, rows[i])
  {
    got := [];
    var i := 0;
    while i < |d.keys|
      invariant 0 <= i <= |rows| && |got| == i
      invariant forall j | 0 <= j < i :: got[j] == Expected(d.leaf, d.nullable, rows[j])
    {
      assert Means(d.leaf, d.nullable, d.index, rows[i], d.keys[i]);
      got := got + [d.Row(i)];
      i := i + 1;
    }
  }

  /** Appends a batch to a fresh column and encodes it. */
  method EncodeBatch(leaf: Leaf, nullable: bool, rows: seq<Option<Any>>)
      returns (c: Column, ts: seq<Token>)
    requires Storable(leaf, rows)
    ensures fresh(c) && c.leaf == leaf && c.nullable == nullable && c.Ready() && c.rows == |rows|
    ensures c.appendKeys == [] && (rows == [] ==> ts == [] && c.Appending() && c.appended == [] && c.index == [])
    ensures rows != [] ==> Leaves(leaf, nullable, rows, c.key, c.index, c.keys)
    ensures rows != [] ==> ts == Frame(UPDATE_ALL + c.key, c.index, c.keys)
    ensures AllMean(leaf, nullable, c.index, rows, c.keys) && (rows != [] ==> c.index != [] && c.index[0] == leaf.zero)
  {
    c := new Column(leaf, nullable);
    AppendAll(c, rows);
    NarrowKeeps(leaf, nullable, c.index, c.appendIndex, c.lostEntries, rows, c.appendKeys);
    ts := c.Encode();
  }

  /** Decodes a stream that holds the given column. */
  method DecodeWritten(d: Column, ts: seq<Token>, rowCount: nat, ghost flags: nat, ghost index: seq<Stored>,
                       ghost keys: seq<nat>)
      returns (r: Option<DecodeError>)
    requires rowCount > 0 ==> Accepts(flags) && Frame(flags, index, keys) <= ts
    modifies d`key, d`index, d`rows, d`keys
    ensures r == None && (rowCount == 0 ==> unchanged(d))
    ensures rowCount > 0 ==> d.key == flags % 0x100 && d.index == index && d.keys == keys && d.rows == |keys|
  {
    r := d.Decode(ts, rowCount);
    if rowCount > 0 {
      FrameReadable(ts, flags, index, keys);
      FrameUnique(ts, flags, index, keys, d.index, d.keys);
    }
  }

  /** Decodes into a fresh column and reads every row. */
  method ReadBack(leaf: Leaf, nullable: bool, ts: seq<Token>, rows: seq<Option<Any>>,
                  ghost width: nat, ghost index: seq<Stored>, ghost keys: seq<nat>)
      returns (r: Option<DecodeError>, got: seq<Option<Stored>>)
    requires width <= 3 && AllMean(leaf, nullable, index, rows, keys)
    requires rows != [] ==> ts == Frame(UPDATE_ALL + width, index, keys) && index != [] && index[0] == leaf.zero
    ensures r == None && |got| == |rows|
    ensures forall i | 0 <= i < |rows| :: got[i] == Expected(leaf, nullable, rows[i])
  {
    var d := new Column(leaf, nullable);
    r := DecodeWritten(d, ts, |rows|, UPDATE_ALL + width, index, keys);
    got := ReadRows(d, rows);
  }

  /** Appends a batch to a fresh column and encodes it twice. */
  method EncodeTwice(leaf: Leaf, nullable: bool, rows: seq<Option<Any>>)
      returns (first: seq<Token>, second: seq<Token>, ghost width: nat, ghost index: seq<Stored>, ghost keys: seq<nat>)
    requires Storable(leaf, rows)
    ensures second == first && width <= 3 && AllMean(leaf, nullable, index, rows, keys)
    ensures rows == [] ==> first == []
    ensures rows != [] ==> first == Frame(UPDATE_ALL + width, index, keys) && index != [] && index[0] == leaf.zero
    ensures rows != [] ==> Leaves(leaf, nullable, rows, width, index, keys)
  {
    var c;
    c, first := EncodeBatch(leaf, nullable, rows);
    second := c.Encode();
    width, index, keys := c.key, c.index, c.keys;
  }

  /** Append, encode, encode again, decode into a fresh column, read every row. */
  method RoundTrip(leaf: Leaf, nullable: bool, rows: seq<Option<Any>>)
      returns (first: seq<Token>, second: seq<Token>, r: Option<DecodeError>, got: seq<Option<Stored>>,
               ghost width: nat, ghost index: seq<Stored>, ghost keys: seq<nat>)
    requires Storable(leaf, rows)
    ensures second == first && (rows == [] ==> first == [])
    ensures rows != [] ==> Right(leaf, nullable, rows, width, index, keys) && OnStream(width, index, keys, first)
    ensures r == None && |got| == |rows|
    ensures forall i | 0 <= i < |rows| && rows[i].Some? && leaf.regular(leaf.cut(rows[i].value)) ::
      got[i] == leaf.store(leaf.cut(rows[i].value))
    ensures forall i | 0 <= i < |rows| && !(rows[i].Some? && leaf.regular(leaf.cut(rows[i].value))) ::
      got[i] == if nullable then None else Some(leaf.zero)
  {
    first, second, width, index, keys := EncodeTwice(leaf, nullable, rows);
    r, got := ReadBack(leaf, nullable, second, rows, width, index, keys);
    if rows != [] {
      FrameOnStream(width, index, keys);
      LeavesRight(leaf, nullable, rows, width, index, keys);
    }
  }

  lemma WithoutBit(flags: nat)
    requires GlobalDictionaryBit(flags) != 0
    ensures flags >= 0x100 && (flags - 0x100) % 0x100 == flags % 0x100
    ensures AdditionalKeysBit(flags - 0x100) == AdditionalKeysBit(flags)
  {
  }

  lemma FrameBehind(ts: seq<Token>, ts': seq<Token>, index: seq<Stored>, keys: seq<nat>)
    requires AgreeBut(ts, ts')
    requires Frame(ts[0].n, index, keys) <= ts
    ensures Frame(ts'[0].n, index, keys) <= ts'
  {
    var f, f' := Frame(ts[0].n, index, keys), Frame(ts'[0].n, index, keys);
    assert f[1..] == f'[1..];
    forall i | 0 <= i < |f'| ensures f'[i] == ts'[i] {
      if i > 0 { assert f'[i] == f'[1..][i - 1] == f[i] == ts[i] == ts[1..][i - 1] == ts'[i]; }
    }
  }

  lemma ReadableBehind(ts: seq<Token>, ts': seq<Token>, width: nat)
    requires |ts| == |ts'| > 0 && ts[1..] == ts'[1..]
    ensures Readable(ts, width) <==> Readable(ts', width)
  {
    assert forall i | 1 <= i < |ts| :: ts[i] == ts[1..][i - 1] == ts'[i];
  }

  /** The flags agree but for bit 8, and the rest does. */
  predicate AgreeBut(ts: seq<Token>, ts': seq<Token>) {
    && Flagged(ts) && Flagged(ts') && |ts| == |ts'| && ts[1..] == ts'[1..]
    && ts[0].n % 0x100 == ts'[0].n % 0x100 && AdditionalKeysBit(ts[0].n) == AdditionalKeysBit(ts'[0].n)
  }

  lemma SameVerdict(ts: seq<Token>, ts': seq<Token>, r: Option<DecodeError>, r': Option<DecodeError>)
    requires AgreeBut(ts, ts') && Verdict(ts, r) && Verdict(ts', r')
    ensures r == r'
  {
    ReadableBehind(ts, ts', ts[0].n % 0x100);
  }

  /** Decodes into a fresh column. */
  method DecodeFresh(leaf: Leaf, nullable: bool, ts: seq<Token>, rowCount: nat)
      returns (r: Option<DecodeError>, key: nat, index: seq<Stored>, keys: seq<nat>)
    ensures rowCount == 0 ==> r == None && key == 0 && index == [] && keys == []
    ensures rowCount > 0 ==> Verdict(ts, r)
    ensures rowCount > 0 && r == None ==> key == ts[0].n % 0x100 && Frame(ts[0].n, index, keys) <= ts
  {
    var c := new Column(leaf, nullable);
    r := c.Decode(ts, rowCount);
    key, index, keys := c.key, c.index, c.keys;
  }

  /** A stream that asks for a global dictionary is taken for the same column as one that does not. */
  method GlobalDictionaryIgnored(leaf: Leaf, nullable: bool, ts: seq<Token>, rowCount: nat)
      returns (r: Option<DecodeError>, key: nat, index: seq<Stored>, keys: seq<nat>,
               without: Option<DecodeError>, key': nat, index': seq<Stored>, keys': seq<nat>)
    requires Flagged(ts) && GlobalDictionaryBit(ts[0].n) != 0
    ensures r == without && (rowCount > 0 ==> Verdict(ts, r))
    ensures rowCount > 0 && r == None ==> Frame(ts[0].n, index, keys) <= ts
    ensures r == None ==> key == key' && index == index' && keys == keys'
  {
    WithoutBit(ts[0].n);
    var ts' := [Number(ts[0].n - 0x100)] + ts[1..];
    assert ts'[1..] == ts[1..];
    r, key, index, keys := DecodeFresh(leaf, nullable, ts, rowCount);
    without, key', index', keys' := DecodeFresh(leaf, nullable, ts', rowCount);
    if rowCount > 0 {
      SameVerdict(ts, ts', r, without);
      if r == None {
        FrameBehind(ts, ts', index, keys);
        FrameUnique(ts', ts'[0].n, index, keys, index', keys');
      }
    }
  }

  /** Flags 0x700: a global dictionary is asked for, and the stream is accepted. */
  method GlobalDictionaryAccepted(leaf: Leaf, nullable: bool, index: seq<Stored>, ks: seq<nat>)
      returns (r: Option<DecodeError>, c: Column)
    ensures GlobalDictionaryBit(0x700) != 0 && r == None && c.index == index && c.keys == ks
  {
    c := new Column(leaf, nullable);
    r := DecodeWritten(c, Frame(0x700, index, ks), 1, 0x700, index, ks);
  }

  /** Keys mean their rows in a longer dictionary as well. */
  lemma LongerMeans(leaf: Leaf, nullable: bool, index: seq<Stored>, index': seq<Stored>,
                    rows: seq<Option<Any>>, keys: seq<nat>)
    requires AllMean(leaf, nullable, index, rows, keys) && index <= index'
    ensures AllMean(leaf, nullable, index', rows, keys)
  {
    forall i | 0 <= i < |rows| ensures Means(leaf, nullable, index', rows[i], keys[i]) {
      assert Means(leaf, nullable, index, rows[i], keys[i]);
    }
  }

  /** Appends to a column whose keys are already there: they stay, and so does what they mean. */
  method AppendMore(c: Column, rows: seq<Option<Any>>, later: seq<Option<Any>>)
    requires c.Ready() && rows != [] && AllMean(c.leaf, c.nullable, c.index, rows, c.keys)
    requires c.index != [] && c.index[0] == c.leaf.zero && Storable(c.leaf, later)
    modifies c`rows, c`index, c`appendKeys, c`appendIndex, c`lostEntries, c`appended
    ensures c.Ready() && AllMean(c.leaf, c.nullable, c.index, rows, c.keys)
    ensures c.index != [] && c.index[0] == c.leaf.zero && c.rows == old(c.rows) + |later|
  {
    var i := 0;
    while i < |later|
      invariant 0 <= i <= |later| && c.Ready() && AllMean(c.leaf, c.nullable, c.index, rows, c.keys)
      invariant c.index != [] && c.index[0] == c.leaf.zero && c.rows == old(c.rows) + i
    {
      ghost var index := c.index;
      var ok, k := c.AppendRow(later[i]);
      LongerMeans(c.leaf, c.nullable, index, c.index, rows, c.keys);
      i := i + 1;
    }
  }

  /** The first batch was empty: the later rows are written. */
  method LaterWritten(c: Column, later: seq<Option<Any>>)
      returns (second: seq<Token>, r: Option<DecodeError>, got: seq<Option<Stored>>)
    requires c.Appending() && c.appended == [] && c.index == [] && Storable(c.leaf, later)
    modifies c
    ensures c.rows == |later| && r == None && Back(c.leaf, c.nullable, later, got)
  {
    AppendAll(c, later);
    NarrowKeeps(c.leaf, c.nullable, c.index, c.appendIndex, c.lostEntries, later, c.appendKeys);
    second := c.Encode();
    r, got := ReadBack(c.leaf, c.nullable, second, later, c.key, c.index, c.keys);
  }

  /** Keys are there: the later rows are dropped. */
  method LaterDropped(c: Column, rows: seq<Option<Any>>, later: seq<Option<Any>>)
      returns (second: seq<Token>, r: Option<DecodeError>, got: seq<Option<Stored>>)
    requires c.Ready() && c.rows == |rows| > 0 && AllMean(c.leaf, c.nullable, c.index, rows, c.keys)
    requires c.index != [] && c.index[0] == c.leaf.zero && Storable(c.leaf, later)
    modifies c
    ensures c.rows == old(c.rows) + |later| && r == None && Back(c.leaf, c.nullable, rows, got)
  {
    AppendMore(c, rows, later);
    second := c.Encode();
    r, got := ReadBack(c.leaf, c.nullable, second, rows, c.key, c.index, c.keys);
  }

  /** Every row came back as expected. */
  ghost predicate Back(leaf: Leaf, nullable: bool, rows: seq<Option<Any>>, got: seq<Option<Stored>>) {
    |got| == |rows| && forall i | 0 <= i < |rows| :: got[i] == Expected(leaf, nullable, rows[i])
  }

  /** Rows appended after an encode without a Reset are dropped by the next one, since the keys already
      there are kept: what comes back is the first batch alone, or the later rows if that was empty. */
  method AppendAfterEncode(leaf: Leaf, nullable: bool, rows: seq<Option<Any>>, later: seq<Option<Any>>)
      returns (second: seq<Token>, held: nat, r: Option<DecodeError>, got: seq<Option<Stored>>)
    requires Storable(leaf, rows) && Storable(leaf, later)
    ensures held == |rows| + |later| && r == None
    ensures Back(leaf, nullable, if rows == [] then later else rows, got)
  {
    var c, first := EncodeBatch(leaf, nullable, rows);
    if rows == [] {
      second, r, got := LaterWritten(c, later);
    } else {
      second, r, got := LaterDropped(c, rows, later);
    }
    held := c.rows;
  }
}
