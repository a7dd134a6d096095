/** The membership summaries of enum columns (lib/column/enum.go, enum8.go, enum16.go): a 256-bit set
    for Enum8, and for Enum16 a range with a flag that says whether every value of the range is
    declared. Both answer membership without a search of the declared values. */
module Enum {
  import opened Base

  datatype AppendError = UnknownElement

  // ---------------------------------------------------------------- Enum8: a bit set

  /** Conversion to int8. */
  function Wrap8(x: int): (r: int)
    ensures -128 <= r <= 127
  {
    (x + 128) % 256 - 128
  }

  /** A uint64 as its bits, lowest first: `|= 1 << k` sets one, `& (1 << k)` reads one. */
  type Word = w: seq<bool> | |w| == 64 witness seq(64, _ => false)
  type Words = ws: seq<Word> | |ws| == 4 witness seq(4, _ => seq(64, _ => false))

  /** `uint8(v) >> 6`, the word of a value. */
  function WordOf(v: int): (k: nat)
    ensures k < 4
  {
    v % 256 / 64
  }

  /** `v & 63`, the bit of a value within its word; on a negative value too. */
  function BitOf(v: int): (k: nat)
    ensures k < 64
  {
    v % 64
  }

  predicate Has(ws: Words, v: int) {
    ws[WordOf(v)][BitOf(v)]
  }

  /** The assignment that declares `v`. */
  function Declared(ws: Words, v: int): Words {
    ws[WordOf(v) := ws[WordOf(v)][BitOf(v) := true]]
  }

  /** Word and bit are those of the value modulo 256. */
  lemma Place(v: int)
    ensures v % 256 == 64 * WordOf(v) + BitOf(v)
  {
    assert v == 256 * (v / 256) + v % 256;
    assert v % 256 == 64 * (v % 256 / 64) + v % 256 % 64;
    assert v == 64 * (4 * (v / 256) + v % 256 / 64) + v % 256 % 64;
  }

  /** Setting the bit of `v` adds exactly the values that convert to the same int8. */
  lemma SetBit(ws: Words, v: int, x: int)
    ensures Has(Declared(ws, v), x) <==> v % 256 == x % 256 || Has(ws, x)
  {
    Place(v);
    Place(x);
  }

  /** An int selects the same bit as its conversion to int8. */
  lemma WrapPlace(v: int)
    ensures Wrap8(v) % 256 == v % 256
    ensures WordOf(Wrap8(v)) == WordOf(v) && BitOf(Wrap8(v)) == BitOf(v)
  {
    var q := (v + 128) / 256;
    assert Wrap8(v) == v - 256 * q;
    assert v - 256 * q == 256 * (v / 256 - q) + v % 256;
    Place(v);
    Place(Wrap8(v));
  }

  class Enum8 {
    var iv: map<string, int>
    var vi: map<int, string>
    var bits: Words
    var col: seq<int>

    /** The bit set is exactly the set of declared values. */
    ghost predicate Valid()
      reads this
    {
      && (forall x | x in vi :: -128 <= x <= 127)
      && (forall x | -128 <= x <= 127 :: Has(bits, x) <==> x in vi)
    }

    constructor (values: seq<string>, indexes: seq<int>)
      requires |values| == |indexes|
      ensures Valid() && col == []
      ensures vi.Keys == set i | 0 <= i < |indexes| :: Wrap8(indexes[i])
    {
      iv, vi, bits, col := map[], map[], seq(4, _ => seq(64, _ => false)), [];
      new;
      var i := 0;
      while i < |values|
        invariant 0 <= i <= |values| && Valid() && col == []
        invariant vi.Keys == set k | 0 <= k < i :: Wrap8(indexes[k])
      {
        Declare(values[i], Wrap8(indexes[i]));
        i := i + 1;
      }
    }

    method Declare(name: string, v: int)
      requires Valid() && -128 <= v <= 127
      modifies this`iv, this`vi, this`bits
      ensures Valid() && vi == old(vi)[v := name] && iv == old(iv)[name := v]
    {
      iv, vi := iv[name := v], vi[v := name];
      forall x | -128 <= x <= 127 ensures Has(Declared(bits, v), x) <==> v == x || Has(bits, x) {
        SetBit(bits, v, x);
      }
      bits := Declared(bits, v);
    }

    /** An int is accepted exactly when its int8 conversion is a declared value, and that is what
        is stored: an int outside the int8 range is not refused for being outside. */
    method AppendInt(elem: int) returns (r: Option<AppendError>)
      requires Valid()
      modifies this`col
      ensures r == None <==> Wrap8(elem) in vi
      ensures col == if r == None then old(col) + [Wrap8(elem)] else old(col)
    {
      WrapPlace(elem);
      assert Has(bits, Wrap8(elem)) <==> Wrap8(elem) in vi;
      if !bits[WordOf(elem)][BitOf(elem)] { return Some(UnknownElement); }
      col := col + [Wrap8(elem)];
      r := None;
    }

    /** For an int8 the bit test is map membership. */
    method AppendInt8(elem: int) returns (r: Option<AppendError>)
      requires Valid() && -128 <= elem <= 127
      modifies this`col
      ensures r == None <==> elem in vi
      ensures col == if r == None then old(col) + [elem] else old(col)
    {
      r := AppendInt(elem);
    }
  }

  // ---------------------------------------------------------------- Enum16: a range

  /** Conversion to int16. */
  function Wrap16(x: int): (r: int)
    ensures -32768 <= r <= 32767 && (x - r) % 65536 == 0
  {
    (x + 32768) % 65536 - 32768
  }

  /** All the numbers from `lo` to `hi`. */
  ghost function Range(lo: int, hi: int): set<int>
    decreases hi - lo + 1
  {
    if lo > hi then {} else Range(lo, hi - 1) + {hi}
  }

  lemma {:induction false} RangeHas(lo: int, hi: int, x: int)
    ensures x in Range(lo, hi) <==> lo <= x <= hi
    decreases hi - lo + 1
  {
    if lo <= hi { RangeHas(lo, hi - 1, x); }
  }

  lemma {:induction false} RangeSize(lo: int, hi: int)
    requires lo <= hi + 1
    ensures |Range(lo, hi)| == hi - lo + 1
    decreases hi - lo + 1
  {
    if lo <= hi {
      RangeSize(lo, hi - 1);
      RangeHas(lo, hi - 1, hi);
    }
  }

  lemma SubsetSize<T>(a: set<T>, b: set<T>)
    requires a <= b
    ensures |a| <= |b| && (|a| == |b| <==> a == b)
  {
    assert b == a + (b - a);
  }

  /** Counts up to 65536 that agree after wrapping are equal. */
  lemma WrapEqual(a: int, b: int)
    requires 1 <= a <= b <= 65536
    ensures Wrap16(Wrap16(b - 1) + 1) == Wrap16(a) <==> a == b
  {
  }

  /** In wrapping int16 arithmetic the flag still says that every value of the range is declared:
      the two counts lie in 1..65536, so they cannot meet by wrapping round. */
  lemma Continuous(keys: set<int>, lo: int, hi: int)
    requires lo in keys && hi in keys && keys <= Range(lo, hi)
    requires -32768 <= lo <= hi <= 32767
    ensures Wrap16(Wrap16(hi - lo) + 1) == Wrap16(|keys|) <==> keys == Range(lo, hi)
  {
    RangeSize(lo, hi);
    SubsetSize(keys, Range(lo, hi));
    SubsetSize({lo}, keys);
    WrapEqual(|keys|, hi - lo + 1);
  }

  class Enum16 {
    var iv: map<string, int>
    var vi: map<int, string>
    var minEnum: int
    var maxEnum: int
    var continuous: bool
    var col: seq<int>

    /** The flag holds exactly when the declared values fill their range. */
    ghost predicate Valid()
      reads this
    {
      && minEnum in vi && maxEnum in vi && vi.Keys <= Range(minEnum, maxEnum)
      && -32768 <= minEnum <= maxEnum <= 32767
      && (continuous <==> vi.Keys == Range(minEnum, maxEnum))
    }

    /** The type parser guarantees at least one value. */
    constructor (values: seq<string>, indexes: seq<int>)
      requires |values| == |indexes| > 0
      ensures Valid() && col == []
      ensures vi.Keys == set i | 0 <= i < |indexes| :: Wrap16(indexes[i])
    {
      iv, vi, minEnum, maxEnum, continuous, col := map[], map[], 32767, -32768, false, [];
      new;
      var i := 0;
      while i < |values|
        invariant 0 <= i <= |values| && col == []
        invariant vi.Keys == set k | 0 <= k < i :: Wrap16(indexes[k])
        invariant if i == 0 then minEnum == 32767 && maxEnum == -32768 else minEnum in vi && maxEnum in vi
        invariant forall x | x in vi :: -32768 <= minEnum <= x <= maxEnum <= 32767
      {
        var k := Wrap16(indexes[i]);
        iv, vi := iv[values[i] := k], vi[k := values[i]];
        if k < minEnum { minEnum := k; }
        if k > maxEnum { maxEnum := k; }
        i := i + 1;
      }
      assert minEnum in vi.Keys;
      forall x | x in vi ensures x in Range(minEnum, maxEnum) { RangeHas(minEnum, maxEnum, x); }
      Continuous(vi.Keys, minEnum, maxEnum);
      continuous := Wrap16(Wrap16(maxEnum - minEnum) + 1) == Wrap16(|vi|);
    }

    /** The range fast path accepts exactly the declared values. */
    method AppendInt16(elem: int) returns (r: Option<AppendError>)
      requires Valid() && -32768 <= elem <= 32767
      modifies this`col
      ensures r == None <==> elem in vi
      ensures col == if r == None then old(col) + [elem] else old(col)
    {
      if continuous && elem >= minEnum && elem <= maxEnum {
        RangeHas(minEnum, maxEnum, elem);
        assert elem in vi.Keys;
        col := col + [elem];
        r := None;
      } else {
        r := AppendInt(elem);
      }
    }

    /** An int is accepted exactly when its int16 conversion is a declared value. */
    method AppendInt(elem: int) returns (r: Option<AppendError>)
      requires Valid()
      modifies this`col
      ensures r == None <==> Wrap16(elem) in vi
      ensures col == if r == None then old(col) + [Wrap16(elem)] else old(col)
    {
      if Wrap16(elem) !in vi { return Some(UnknownElement); }
      col := col + [Wrap16(elem)];
      r := None;
    }
  }

  // ---------------------------------------------------------------- from declaration to test

  /** A declared Enum8 and one int offered to it. */
  method Accepts8(values: seq<string>, indexes: seq<int>, elem: int) returns (ok: bool)
    requires |values| == |indexes|
    ensures ok <==> exists i :: 0 <= i < |indexes| && Wrap8(indexes[i]) == Wrap8(elem)
  {
    var e := new Enum8(values, indexes);
    assert Wrap8(elem) in e.vi <==> Wrap8(elem) in e.vi.Keys;
    var r := e.AppendInt(elem);
    ok := r == None;
  }

  /** A declared Enum16 and one int16 offered to it. */
  method Accepts16(values: seq<string>, indexes: seq<int>, elem: int) returns (ok: bool)
    requires |values| == |indexes| > 0 && -32768 <= elem <= 32767
    ensures ok <==> exists i :: 0 <= i < |indexes| && Wrap16(indexes[i]) == elem
  {
    var e := new Enum16(values, indexes);
    assert elem in e.vi <==> elem in e.vi.Keys;
    var r := e.AppendInt16(elem);
    ok := r == None;
  }
}
