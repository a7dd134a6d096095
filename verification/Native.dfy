/** The native stream as a sequence of primitives. Encoding and decoding one primitive are
    inverse; everything built from them is modelled.

    Readers take a ghost argument that names what was written: if that stands at their position,
    it is what they return. */
module Native {
  import opened Base

  /** A Go value offered as a row, and a value as a leaf column keeps it. */
  type Any = nat
  type Stored = nat

  /** Unsigned integers of the four widths carry their width: 0 for 8 bits up to 3 for 64. */
  datatype Token = Number(n: int) | Text(s: string) | Value(w: Stored) | Key(width: nat, k: nat)

  function Values(ws: seq<Stored>): (ts: seq<Token>)
    ensures |ts| == |ws|
  {
    seq(|ws|, i requires 0 <= i < |ws| => Value(ws[i]))
  }

  function KeyTokens(width: nat, ks: seq<nat>): (ts: seq<Token>)
    ensures |ts| == |ks|
  {
    seq(|ks|, i requires 0 <= i < |ks| => Key(width, ks[i]))
  }

  lemma ValuesInjective(a: seq<Stored>, b: seq<Stored>)
    requires Values(a) == Values(b)
    ensures a == b
  {
    forall i | 0 <= i < |a| ensures a[i] == b[i] { assert Values(a)[i] == Values(b)[i]; }
  }

  lemma KeysInjective(width: nat, a: seq<nat>, b: seq<nat>)
    requires KeyTokens(width, a) == KeyTokens(width, b)
    ensures a == b
  {
    forall i | 0 <= i < |a| ensures a[i] == b[i] { assert KeyTokens(width, a)[i] == KeyTokens(width, b)[i]; }
  }

  /** `part` stands in the stream at `pos`. */
  predicate At(ts: seq<Token>, pos: nat, part: seq<Token>) {
    pos + |part| <= |ts| && ts[pos..pos + |part|] == part
  }

  /** A stream that holds `a + b` at a position holds `a` there and `b` right behind it. */
  lemma AtSplit(ts: seq<Token>, pos: nat, a: seq<Token>, b: seq<Token>)
    requires At(ts, pos, a + b)
    ensures At(ts, pos, a) && At(ts, pos + |a|, b)
  {
    var w := ts[pos..pos + |a + b|];
    assert ts[pos..pos + |a|] == w[..|a|] && ts[pos + |a|..pos + |a| + |b|] == w[|a|..];
  }

  /** Reads `n` values from position `pos`. */
  method ReadValues(ts: seq<Token>, pos: nat, n: int) returns (ok: bool, ws: seq<Stored>)
    ensures ok <==> 0 <= n && pos + n <= |ts| && forall i | pos <= i < pos + n :: ts[i].Value?
    ensures ok ==> |ws| == n && At(ts, pos, Values(ws))
  {
    ws := [];
    if n < 0 || pos + n > |ts| { return false, []; }
    var i := pos;
    while i < pos + n
      invariant pos <= i <= pos + n && |ws| == i - pos
      invariant forall j | pos <= j < i :: ts[j] == Value(ws[j - pos])
    {
      if !ts[i].Value? { return false, []; }
      ws := ws + [ts[i].w];
      i := i + 1;
    }
    ok := true;
  }

  /** Reads `n` keys of the given width from position `pos`. */
  method ReadKeys(ts: seq<Token>, pos: nat, n: int, width: nat) returns (ok: bool, ks: seq<nat>)
    ensures ok <==> 0 <= n && pos + n <= |ts| && forall i | pos <= i < pos + n :: ts[i].Key? && ts[i].width == width
    ensures ok ==> |ks| == n && At(ts, pos, KeyTokens(width, ks))
  {
    ks := [];
    if n < 0 || pos + n > |ts| { return false, []; }
    var i := pos;
    while i < pos + n
      invariant pos <= i <= pos + n && |ks| == i - pos
      invariant forall j | pos <= j < i :: ts[j] == Key(width, ks[j - pos])
    {
      if !ts[i].Key? || ts[i].width != width { return false, []; }
      ks := ks + [ts[i].k];
      i := i + 1;
    }
    ok := true;
  }

  lemma KeysReadable(ts: seq<Token>, pos: nat, width: nat, ks: seq<nat>)
    requires At(ts, pos, KeyTokens(width, ks))
    ensures forall i | pos <= i < pos + |ks| :: ts[i] == Key(width, ks[i - pos])
  {
  }

  function Texts(names: seq<string>): (ts: seq<Token>)
    ensures |ts| == |names|
  {
    seq(|names|, i requires 0 <= i < |names| => Text(names[i]))
  }

  /** Reads `n` strings from position `pos`. */
  method ReadTexts(ts: seq<Token>, pos: nat, n: int, ghost written: seq<string>) returns (ok: bool, names: seq<string>)
    ensures ok ==> |names| == n
    ensures |written| == n && At(ts, pos, Texts(written)) ==> ok && names == written
  {
    ghost var good := |written| == n && At(ts, pos, Texts(written));
    if good {
      forall i | pos <= i < pos + n ensures ts[i] == Text(written[i - pos]) {
        assert ts[pos..pos + n][i - pos] == Texts(written)[i - pos];
      }
    }
    names := [];
    if n < 0 || pos + n > |ts| { return false, []; }
    var i := pos;
    while i < pos + n
      invariant pos <= i <= pos + n && |names| == i - pos
      invariant good ==> names == written[..i - pos]
    {
      if !ts[i].Text? { return false, []; }
      names := names + [ts[i].s];
      i := i + 1;
    }
    ok := true;
  }

  // ---------------------------------------------------------------- several leaf columns

  /** The leaf columns one after the other. */
  function ColumnTokens(columns: seq<seq<Stored>>): seq<Token> {
    if columns == [] then [] else Values(columns[0]) + ColumnTokens(columns[1..])
  }

  method WriteColumns(columns: seq<seq<Stored>>) returns (ts: seq<Token>)
    ensures ts == ColumnTokens(columns)
  {
    ts := [];
    var i := 0;
    assert columns[0..] == columns;
    while i < |columns|
      invariant 0 <= i <= |columns| && ts + ColumnTokens(columns[i..]) == ColumnTokens(columns)
    {
      assert columns[i..][1..] == columns[i + 1..];
      ts := ts + Values(columns[i]);
      i := i + 1;
    }
  }

  function Total(ns: seq<nat>): nat {
    if ns == [] then 0 else Total(ns[..|ns| - 1]) + ns[|ns| - 1]
  }

  lemma {:induction false} TotalPrefix(ns: seq<nat>, k: nat)
    requires k <= |ns|
    ensures Total(ns[..k]) <= Total(ns)
  {
    if k < |ns| {
      TotalPrefix(ns[..|ns| - 1], k);
      assert ns[..|ns| - 1][..k] == ns[..k];
    } else {
      assert ns[..k] == ns;
    }
  }

  lemma TotalStep(ns: seq<nat>, k: nat)
    requires k < |ns|
    ensures Total(ns[..k + 1]) == Total(ns[..k]) + ns[k] <= Total(ns)
  {
    assert ns[..k + 1][..k] == ns[..k];
    TotalPrefix(ns, k + 1);
  }

  /** Sums of numbers none of which is smaller are equal only for the same numbers. */
  lemma {:induction false} TotalTight(a: seq<nat>, b: seq<nat>)
    requires |a| == |b| && forall i | 0 <= i < |a| :: a[i] <= b[i]
    ensures Total(a) <= Total(b) && (Total(b) <= Total(a) ==> a == b)
  {
    if a != [] {
      var n := |a| - 1;
      TotalTight(a[..n], b[..n]);
      assert a == a[..n] + [a[n]] && b == b[..n] + [b[n]];
    }
  }

  predicate AllValues(ts: seq<Token>, pos: nat) {
    forall i | pos <= i < |ts| :: ts[i].Value?
  }

  function Lengths(columns: seq<seq<Stored>>): (ns: seq<nat>)
    ensures |ns| == |columns|
  {
    seq(|columns|, c requires 0 <= c < |columns| => |columns[c]|)
  }

  lemma TotalFront(n: nat, ns: seq<nat>)
    ensures Total([n] + ns) == n + Total(ns)
  {
    if ns != [] {
      var k := |ns| - 1;
      TotalFront(n, ns[..k]);
      assert ([n] + ns)[..k + 1] == [n] + ns[..k];
    } else {
      assert ([n] + ns)[..0] == [];
    }
  }

  lemma {:induction false} ColumnTokensLength(columns: seq<seq<Stored>>)
    ensures |ColumnTokens(columns)| == Total(Lengths(columns)) && AllValues(ColumnTokens(columns), 0)
  {
    if columns != [] {
      ColumnTokensLength(columns[1..]);
      TotalFront(|columns[0]|, Lengths(columns[1..]));
      assert Lengths(columns) == [|columns[0]|] + Lengths(columns[1..]);
    }
  }

  /** From column `i` on, what was written stands at `pos`. */
  ghost predicate Left(ts: seq<Token>, pos: nat, written: seq<seq<Stored>>, i: nat) {
    i <= |written| && At(ts, pos, ColumnTokens(written[i..]))
  }

  /** Reads column `i`. */
  method ReadColumn(ts: seq<Token>, pos: nat, n: nat, i: nat, ghost written: seq<seq<Stored>>, ghost good: bool)
      returns (ok: bool, got: seq<Stored>)
    requires good ==> i < |written| && |written[i]| == n && Left(ts, pos, written, i)
    ensures ok ==> |got| == n && pos + n <= |ts|
    ensures AllValues(ts, pos) ==> (ok <==> pos + n <= |ts|)
    ensures good ==> ok && got == written[i] && Left(ts, pos + n, written, i + 1)
  {
    if good {
      assert written[i..][1..] == written[i + 1..];
      AtSplit(ts, pos, Values(written[i]), ColumnTokens(written[i + 1..]));
    }
    ok, got := ReadValues(ts, pos, n);
    if good { ValuesInjective(got, written[i]); }
  }

  /** Reads leaf columns of the given row counts, one after the other. */
  method ReadColumns(ts: seq<Token>, pos: nat, counts: seq<nat>, ghost written: seq<seq<Stored>>)
      returns (ok: bool, columns: seq<seq<Stored>>)
    ensures ok ==> Counted(columns, counts)
    ensures pos <= |ts| && AllValues(ts, pos) ==> (ok <==> pos + Total(counts) <= |ts|)
    ensures Counted(written, counts) && At(ts, pos, ColumnTokens(written)) ==> ok && columns == written
  {
    columns := [];
    ghost var good := Counted(written, counts) && At(ts, pos, ColumnTokens(written));
    var p, i := pos, 0;
    if good { assert written[0..] == written; }
    while i < |counts|
      invariant 0 <= i == |columns| <= |counts| && p >= 0
      invariant forall c | 0 <= c < i :: |columns[c]| == counts[c]
      invariant p == pos + Total(counts[..i]) && (pos <= |ts| ==> p <= |ts|)
      invariant good ==> Counted(written, counts) && columns == written[..i] && Left(ts, p, written, i)
    {
      TotalStep(counts, i);
      var got;
      ok, got := ReadColumn(ts, p, counts[i], i, written, good);
      if !ok { return; }
      columns := columns + [got];
      p := p + counts[i];
      i := i + 1;
    }
    if good { assert written[..i] == written; }
    assert counts[..i] == counts;
    ok := true;
  }

  ghost predicate Counted(columns: seq<seq<Stored>>, counts: seq<nat>) {
    |columns| == |counts| && forall c | 0 <= c < |columns| :: |columns[c]| == counts[c]
  }
}
