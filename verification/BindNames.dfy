/** Numeric `$n` and named `@name` markers (bind.go). Both take the longest run of name characters. */
module BindNames {
  import opened Base
  import opened Lexer
  import opened Bind
  import Decimals

  /** What a marker looks like: its first byte and the bytes of its name. */
  datatype Style = Style(lead: char, inName: char -> bool)

  predicate IsNameChar(c: char) {
    c == '_' || '0' <= c <= '9' || 'a' <= c <= 'z' || 'A' <= c <= 'Z'
  }

  const NUMERIC: Style := Style('$', c => Decimals.IsDigit(c))
  const NAMED: Style := Style('@', c => IsNameChar(c))

  // ---------------------------------------------------------------- reference

  predicate NameMark(q: string, i: nat, ctx: Ctx, style: Style)
    requires i < |q|
  {
    ctx == Raw && q[i] == style.lead && i + 1 < |q| && style.inName(q[i + 1])
  }

  /** Where the run of name bytes from `j` ends. */
  function NameEnd(q: string, j: nat, style: Style): (r: nat)
    requires j <= |q|
    ensures j <= r <= |q| && (forall k | j <= k < r :: style.inName(q[k])) && (r < |q| ==> !style.inName(q[r]))
    decreases |q| - j
  {
    if j < |q| && style.inName(q[j]) then NameEnd(q, j + 1, style) else j
  }

  function Lookup(params: map<string, string>, name: string): string {
    if name in params then params[name] else ""
  }

  /** The rewriting from token start `i`: markers become their parameters. */
  function Rewritten(q: string, step: Stepper, i: nat, ctx: Ctx, style: Style, params: map<string, string>): string
    decreases |q| - i
  {
    if i >= |q| then ""
    else if NameMark(q, i, ctx, style) then
      var j := NameEnd(q, i + 1, style);
      Lookup(params, q[i..j]) + Rewritten(q, step, j, ctx, style, params)
    else
      var s := step(i, ctx);
      if i < s.next <= |q| then q[i..s.next] + Rewritten(q, step, s.next, s.ctx, style, params) else ""
  }

  /** The names of the markers from `i` on. */
  function MarkNames(q: string, step: Stepper, i: nat, ctx: Ctx, style: Style): set<string>
    decreases |q| - i
  {
    if i >= |q| then {}
    else if NameMark(q, i, ctx, style) then
      var j := NameEnd(q, i + 1, style);
      {q[i..j]} + MarkNames(q, step, j, ctx, style)
    else if i < step(i, ctx).next then MarkNames(q, step, step(i, ctx).next, step(i, ctx).ctx, style) else {}
  }

  /** All markers have a parameter, or there is an error. */
  ghost predicate NamesSpec(q: string, style: Style, params: map<string, string>, r: Bound) {
    if MarkNames(q, Steps(q), 0, Raw, style) <= params.Keys
    then r == Bound(Rewritten(q, Steps(q), 0, Raw, style, params))
    else r == NoArgument
  }

  // ---------------------------------------------------------------- the scanner

  datatype NameGoal = NameGoal(step: Stepper, names: set<string>, whole: set<string>)

  datatype NameScan = NameScan(buf: string, last: int, unbind: set<string>)

  /** The scanner's state at token start `i`; `seen` are the markers so far. */
  ghost predicate Scanning(q: string, style: Style, params: map<string, string>, g: NameGoal, i: nat, ctx: Ctx,
                           s: NameScan, seen: set<string>) {
    && i <= |q| && Lexes(q, g.step)
    && seen + MarkNames(q, g.step, i, ctx, style) == g.names && s.unbind == seen - params.Keys
    && (s.last < 0 ==> s.buf == "" && seen == {})
    && Copied(q, s.buf, s.last, i, Rewritten(q, g.step, i, ctx, style, params), g.whole)
  }

  lemma ScanToken(q: string, style: Style, params: map<string, string>, g: NameGoal, i: nat, ctx: Ctx, s: NameScan,
                  seen: set<string>)
    requires i < |q| && !NameMark(q, i, ctx, style) && Scanning(q, style, params, g, i, ctx, s, seen)
    ensures Scanning(q, style, params, g, g.step(i, ctx).next, g.step(i, ctx).ctx, s, seen)
  {
    var t := g.step(i, ctx);
    assert Token(q, i, ctx, t);
    CopiedMore(q, s.buf, s.last, i, t.next, Rewritten(q, g.step, t.next, t.ctx, style, params), g.whole);
  }

  /** After a marker that ends at `j`. */
  function Marked(q: string, i: nat, j: nat, params: map<string, string>, s: NameScan): NameScan
    requires 0 <= s.last + 1 <= i <= j <= |q|
  {
    NameScan(s.buf + q[s.last + 1..i] + Lookup(params, q[i..j]), j - 1,
             if q[i..j] in params then s.unbind else s.unbind + {q[i..j]})
  }

  lemma ScanMark(q: string, style: Style, params: map<string, string>, g: NameGoal, i: nat, s: NameScan,
                 seen: set<string>)
    requires i < |q| && NameMark(q, i, Raw, style) && Scanning(q, style, params, g, i, Raw, s, seen)
    ensures 0 <= s.last + 1 <= i
    ensures var j := NameEnd(q, i + 1, style);
      Scanning(q, style, params, g, j, Raw, Marked(q, i, j, params, s), seen + {q[i..j]})
  {
    var j := NameEnd(q, i + 1, style);
    var rest := Rewritten(q, g.step, j, Raw, style, params);
    CopiedReplaced(q, s.buf, s.last, i, j - 1, Lookup(params, q[i..j]), rest, g.whole);
  }

  /** The longest name from `i`. */
  method Munch(q: string, i: nat, style: Style) returns (j: nat)
    requires i < |q| && NameMark(q, i, Raw, style)
    ensures j == NameEnd(q, i + 1, style)
  {
    j := i + 1;
    while j < |q| && style.inName(q[j])
      invariant i + 1 <= j <= |q| && NameEnd(q, j, style) == NameEnd(q, i + 1, style)
    {
      j := j + 1;
    }
  }

  method Mark(q: string, style: Style, params: map<string, string>, ghost g: NameGoal, i: nat, s: NameScan,
              ghost seen: set<string>)
      returns (s': NameScan, j: nat, ghost seen': set<string>)
    requires i < |q| && NameMark(q, i, Raw, style) && Scanning(q, style, params, g, i, Raw, s, seen)
    ensures i < j <= |q| && Scanning(q, style, params, g, j, Raw, s', seen')
  {
    j := Munch(q, i, style);
    var name := q[i..j];
    ScanMark(q, style, params, g, i, s, seen);
    seen' := seen + {name};
    var buf := s.buf + q[s.last + 1..i];
    if name in params {
      s' := NameScan(buf + params[name], j - 1, s.unbind);
    } else {
      assert buf + "" == buf;
      s' := NameScan(buf, j - 1, s.unbind + {name});
    }
  }

  method Pass(q: string, style: Style, params: map<string, string>, ghost g: NameGoal, i: nat, state: QuoteState,
              ghost s: NameScan, ghost seen: set<string>)
      returns (j: nat)
    requires g.step == Steps(q) && state.Valid() && i < |q| && !NameMark(q, i, state.Context(), style)
    requires Scanning(q, style, params, g, i, state.Context(), s, seen)
    modifies state
    ensures state.Valid() && i < j <= |q| && Scanning(q, style, params, g, j, state.Context(), s, seen)
  {
    ScanToken(q, style, params, g, i, state.Context(), s, seen);
    assert g.step(i, state.Context()) == Step(q, i, state.Context());
    var end := state.Update(q, i);
    j := end + 1;
  }

  method ScanAll(q: string, style: Style, params: map<string, string>, ghost g: NameGoal)
      returns (s: NameScan, ghost ctx: Ctx, ghost seen: set<string>)
    requires g.step == Steps(q) && Scanning(q, style, params, g, 0, Raw, NameScan("", -1, {}), {})
    ensures Scanning(q, style, params, g, |q|, ctx, s, seen)
  {
    s, ctx, seen := NameScan("", -1, {}), Raw, {};
    var state := new QuoteState();
    var i := 0;
    while i < |q|
      invariant i <= |q| && state.Valid() && fresh(state)
      invariant ctx == state.Context() && Scanning(q, style, params, g, i, ctx, s, seen)
    {
      if !state.InProtectedContext() && q[i] == style.lead && i + 1 < |q| && style.inName(q[i + 1]) {
        s, i, seen := Mark(q, style, params, g, i, s, seen);
      } else {
        i := Pass(q, style, params, g, i, state, s, seen);
        ctx := state.Context();
      }
    }
  }

  /** The scan both styles share. */
  method Substitute(q: string, style: Style, params: map<string, string>) returns (r: Bound)
    ensures NamesSpec(q, style, params, r)
  {
    ghost var text := Rewritten(q, Steps(q), 0, Raw, style, params);
    ghost var g := NameGoal(Steps(q), MarkNames(q, Steps(q), 0, Raw, style), {text});
    StepsLex(q);
    PositionalStart(q, text);
    ghost var ctx, seen;
    var s;
    s, ctx, seen := ScanAll(q, style, params, g);
    Finished(q, s.buf, s.last, text);
    assert seen == g.names;
    if s.last < 0 { return Bound(q); }
    var buf := s.buf + q[s.last + 1..];
    if s.unbind != {} {
      assert !(seen <= params.Keys);
      return NoArgument;
    }
    assert seen <= params.Keys;
    r := Bound(buf);
  }

  // ---------------------------------------------------------------- parameter tables

  /** A table filled in order; later entries of a key replace earlier ones. */
  function Table(keys: seq<string>, lits: seq<string>): map<string, string>
    requires |keys| == |lits|
  {
    if keys == [] then map[]
    else
      var n := |keys| - 1;
      Table(keys[..n], lits[..n])[keys[n] := lits[n]]
  }

  ghost predicate LastKey(keys: seq<string>, k: nat)
    requires k < |keys|
  {
    forall l | k < l < |keys| :: keys[l] != keys[k]
  }

  /** A key stands for its last entry. */
  lemma {:induction false} TableLookup(keys: seq<string>, lits: seq<string>, k: nat)
    requires |keys| == |lits| && k < |keys| && LastKey(keys, k)
    ensures keys[k] in Table(keys, lits) && Table(keys, lits)[keys[k]] == lits[k]
  {
    var n := |keys| - 1;
    if k < n {
      forall l | k < l < n ensures keys[..n][l] != keys[..n][k] { assert keys[l] != keys[k]; }
      TableLookup(keys[..n], lits[..n], k);
    }
  }

  lemma {:induction false} TableKeys(keys: seq<string>, lits: seq<string>, name: string)
    requires |keys| == |lits|
    ensures name in Table(keys, lits) <==> name in keys
  {
    if keys != [] {
      var n := |keys| - 1;
      TableKeys(keys[..n], lits[..n], name);
      assert keys == keys[..n] + [keys[n]];
    }
  }

  lemma TableStep(keys: seq<string>, lits: seq<string>, n: nat)
    requires |keys| == |lits| && n < |keys|
    ensures Table(keys[..n + 1], lits[..n + 1]) == Table(keys[..n], lits[..n])[keys[n] := lits[n]]
  {
    assert keys[..n + 1][..n] == keys[..n] && lits[..n + 1][..n] == lits[..n];
  }

  // ---------------------------------------------------------------- numeric markers

  function Dollar(n: nat): string {
    "$" + Decimals.Decimal(n)
  }

  function Dollars(n: nat): (keys: seq<string>)
    ensures |keys| == n
  {
    seq(n, k requires 0 <= k < n => Dollar(k + 1))
  }

  lemma DollarInjective(m: nat, n: nat)
    ensures Dollar(m) == Dollar(n) ==> m == n
  {
    assert Dollar(m)[1..] == Decimals.Decimal(m) && Dollar(n)[1..] == Decimals.Decimal(n);
  }

  /** Keys made from numbers by an injective function. */
  ghost predicate Counted(f: nat -> string, keys: seq<string>) {
    (forall k | 0 <= k < |keys| :: keys[k] == f(k + 1)) && forall m: nat, n: nat :: f(m) == f(n) ==> m == n
  }

  lemma DollarsCounted(n: nat)
    ensures Counted((m: nat) => Dollar(m), Dollars(n))
  {
    forall l: nat, m: nat ensures Dollar(l) == Dollar(m) ==> l == m { DollarInjective(l, m); }
  }

  /** `$n` is argument `n`, counted from one and written without leading zeros; no other number names
      an argument. */
  lemma NumericLookup(lits: seq<string>, n: nat)
    ensures Dollar(n) in Table(Dollars(|lits|), lits) <==> 1 <= n <= |lits|
    ensures 1 <= n <= |lits| ==> Table(Dollars(|lits|), lits)[Dollar(n)] == lits[n - 1]
  {
    var f, keys := (m: nat) => Dollar(m), Dollars(|lits|);
    DollarsCounted(|lits|);
    assert f(n) == Dollar(n);
    NumberLookup(f, keys, lits, n);
  }

  lemma NumberLookup(f: nat -> string, keys: seq<string>, lits: seq<string>, n: nat)
    requires Counted(f, keys) && |keys| == |lits|
    ensures f(n) in Table(keys, lits) <==> 1 <= n <= |lits|
    ensures 1 <= n <= |lits| ==> Table(keys, lits)[f(n)] == lits[n - 1]
  {
  }

  /** All arguments are rendered first. */
  method BindNumeric(q: string, args: seq<Rendered>) returns (r: Bound)
    ensures if !AllRendered(args, |args|) then r == FormatError
      else NamesSpec(q, NUMERIC, Table(Dollars(|args|), Literals(args)), r)
  {
    var params: map<string, string> := map[];
    ghost var keys, lits := Dollars(|args|), Literals(args);
    var i := 0;
    while i < |args|
      invariant 0 <= i <= |args| && AllRendered(args, i) && params == Table(keys[..i], lits[..i])
    {
      if args[i].None? { return FormatError; }
      TableStep(keys, lits, i);
      params := params["$" + Decimals.Decimal(i + 1) := args[i].value];
      i := i + 1;
    }
    assert keys[..i] == keys && lits[..i] == lits;
    r := Substitute(q, NUMERIC, params);
  }

  // ---------------------------------------------------------------- named markers

  function Titles(names: seq<string>): (keys: seq<string>)
    ensures |keys| == |names|
  {
    seq(|names|, k requires 0 <= k < |names| => "@" + names[k])
  }

  method BindNamed(q: string, names: seq<string>, args: seq<Rendered>) returns (r: Bound)
    requires |names| == |args|
    ensures if !AllRendered(args, |args|) then r == FormatError
      else NamesSpec(q, NAMED, Table(Titles(names), Literals(args)), r)
  {
    var params: map<string, string> := map[];
    ghost var keys, lits := Titles(names), Literals(args);
    var i := 0;
    while i < |args|
      invariant 0 <= i <= |args| && AllRendered(args, i) && params == Table(keys[..i], lits[..i])
    {
      if args[i].None? { return FormatError; }
      TableStep(keys, lits, i);
      params := params["@" + names[i] := args[i].value];
      i := i + 1;
    }
    assert keys[..i] == keys && lits[..i] == lits;
    r := Substitute(q, NAMED, params);
  }

  // ---------------------------------------------------------------- which styles a query uses

  /** Has a numeric marker been seen, and a positional one; `i` is the scanner's index. */
  ghost predicate Spotting(q: string, step: Stepper, i: nat, ctx: Ctx, numeric: bool, positional: bool) {
    && i <= |q| && Lexes(q, step)
    && (positional || Marks(q, step, TokenStart(q, i, ctx), ctx) > 0 <==> Marks(q, step, 0, Raw) > 0)
    && (numeric || HasName(q, step, i, ctx, NUMERIC) <==> HasName(q, step, 0, Raw, NUMERIC))
  }

  /** Some token start from `i` on has a marker of the style. */
  predicate HasName(q: string, step: Stepper, i: nat, ctx: Ctx, style: Style)
    decreases |q| - i
  {
    i < |q| &&
    (NameMark(q, i, ctx, style) ||
     (i < step(i, ctx).next && HasName(q, step, step(i, ctx).next, step(i, ctx).ctx, style)))
  }

  /** That is so exactly if the rewriting has a marker. */
  lemma {:induction false} HasNameIff(q: string, step: Stepper, i: nat, ctx: Ctx, style: Style)
    ensures HasName(q, step, i, ctx, style) <==> MarkNames(q, step, i, ctx, style) != {}
    decreases |q| - i
  {
    if i < |q| && !NameMark(q, i, ctx, style) && i < step(i, ctx).next {
      HasNameIff(q, step, step(i, ctx).next, step(i, ctx).ctx, style);
    }
  }

  lemma SpotStep(q: string, step: Stepper, i: nat, ctx: Ctx, numeric: bool, positional: bool)
    requires i < |q| && Spotting(q, step, i, ctx, numeric, positional)
    ensures Spotting(q, step, step(i, ctx).next, step(i, ctx).ctx, numeric || NameMark(q, i, ctx, NUMERIC),
                     positional || (ctx == Raw && q[i] == '?' && !Mid(q, i, ctx)))
  {
    var s := step(i, ctx);
    assert Token(q, i, ctx, s);
    if Mid(q, i, ctx) {
      assert !Mid(q, i + 1, ctx) && EscapedMark(q, i - 1, ctx);
    } else if EscapedMark(q, i, ctx) {
      assert s == Lexed(ctx, i + 1) && Mid(q, i + 1, ctx);
    } else {
      NotMid(q, step, i, ctx);
    }
  }

  /** What the byte at `i` adds. */
  method SpotAt(q: string, i: nat, state: QuoteState, numeric: bool, positional: bool)
      returns (numeric': bool, positional': bool)
    requires i < |q| && state.Valid()
    ensures numeric' <==> numeric || NameMark(q, i, state.Context(), NUMERIC)
    ensures positional' <==> positional || (state.Context() == Raw && q[i] == '?' && !Mid(q, i, state.Context()))
  {
    numeric', positional' := numeric, positional;
    if !state.InProtectedContext() {
      if q[i] == '?' && (i == 0 || q[i - 1] != '\\') {
        positional' := true;
      } else if q[i] == '$' && i + 1 < |q| && Decimals.IsDigit(q[i + 1]) {
        numeric' := true;
      }
    }
  }

  method SpotNext(q: string, ghost step: Stepper, i: nat, state: QuoteState, numeric: bool, positional: bool)
      returns (numeric': bool, positional': bool, j: nat)
    requires step == Steps(q) && i < |q| && state.Valid() && Spotting(q, step, i, state.Context(), numeric, positional)
    modifies state
    ensures state.Valid() && i < j <= |q| && Spotting(q, step, j, state.Context(), numeric', positional')
  {
    SpotStep(q, step, i, state.Context(), numeric, positional);
    assert step(i, state.Context()) == Step(q, i, state.Context());
    numeric', positional' := SpotAt(q, i, state, numeric, positional);
    var end := state.Update(q, i);
    j := end + 1;
  }

  /** Which marker styles the raw text of a query uses. */
  method ParamsFormats(q: string) returns (numeric: bool, positional: bool)
    ensures numeric <==> MarkNames(q, Steps(q), 0, Raw, NUMERIC) != {}
    ensures positional <==> Marks(q, Steps(q), 0, Raw) > 0
  {
    HasNameIff(q, Steps(q), 0, Raw, NUMERIC);
    StepsLex(q);
    numeric, positional := Spot(q, Steps(q));
  }

  method Spot(q: string, ghost step: Stepper) returns (numeric: bool, positional: bool)
    requires step == Steps(q) && Lexes(q, step)
    ensures numeric <==> HasName(q, step, 0, Raw, NUMERIC)
    ensures positional <==> Marks(q, step, 0, Raw) > 0
  {
    numeric, positional := false, false;
    var state := new QuoteState();
    var i := 0;
    while i < |q| && !(numeric && positional)
      invariant i <= |q| && state.Valid() && fresh(state) && Spotting(q, step, i, state.Context(), numeric, positional)
    {
      numeric, positional, i := SpotNext(q, step, i, state, numeric, positional);
    }
  }

  // ---------------------------------------------------------------- binding

  /** An argument with its name, if it has one. */
  datatype Arg = Arg(name: Option<string>, text: Rendered)

  datatype Outcome = Query(bound: Bound) | MixedParams

  function Texts(args: seq<Arg>): (r: seq<Rendered>)
    ensures |r| == |args|
  {
    seq(|args|, k requires 0 <= k < |args| => args[k].text)
  }

  function Names(args: seq<Arg>): (r: seq<string>)
    ensures |r| == |args|
  {
    seq(|args|, k requires 0 <= k < |args| => if args[k].name.Some? then args[k].name.value else "")
  }

  predicate AnyNamed(args: seq<Arg>) { exists k :: 0 <= k < |args| && args[k].name.Some? }

  predicate AnyUnnamed(args: seq<Arg>) { exists k :: 0 <= k < |args| && args[k].name.None? }

  method CheckAllNamed(args: seq<Arg>) returns (mixed: bool, named: bool)
    ensures mixed <==> AnyNamed(args) && AnyUnnamed(args)
    ensures !mixed ==> (named <==> AnyNamed(args))
  {
    var unnamed := false;
    mixed, named := false, false;
    var k := 0;
    while k < |args|
      invariant 0 <= k <= |args| && !(named && unnamed)
      invariant named <==> exists l :: 0 <= l < k && args[l].name.Some?
      invariant unnamed <==> exists l :: 0 <= l < k && args[l].name.None?
    {
      if args[k].name.Some? { named := true; } else { unnamed := true; }
      if named && unnamed { return true, named; }
      k := k + 1;
    }
  }

  /** Named and unnamed arguments do not mix, nor do the two unnamed styles. */
  ghost predicate BindSpec(q: string, args: seq<Arg>, r: Outcome) {
    var numeric, positional := MarkNames(q, Steps(q), 0, Raw, NUMERIC) != {}, Marks(q, Steps(q), 0, Raw) > 0;
    if args == [] then r == Query(Bound(q))
    else if AnyNamed(args) && AnyUnnamed(args) then r == MixedParams
    else if AnyNamed(args) then
      r.Query? && if AllRendered(Texts(args), |args|)
      then NamesSpec(q, NAMED, Table(Titles(Names(args)), Literals(Texts(args))), r.bound) else r.bound == FormatError
    else if numeric && positional then r == MixedParams
    else if numeric then
      r.Query? && if AllRendered(Texts(args), |args|)
      then NamesSpec(q, NUMERIC, Table(Dollars(|args|), Literals(Texts(args))), r.bound) else r.bound == FormatError
    else r.Query? && PositionalSpec(q, Texts(args), r.bound)
  }

  method BindArgs(q: string, args: seq<Arg>) returns (r: Outcome)
    ensures BindSpec(q, args, r)
  {
    if |args| == 0 { return Query(Bound(q)); }
    var mixed, named := CheckAllNamed(args);
    if mixed { return MixedParams; }
    var bound;
    if named {
      bound := BindNamed(q, Names(args), Texts(args));
      return Query(bound);
    }
    var numeric, positional := ParamsFormats(q);
    if numeric && positional { return MixedParams; }
    if numeric {
      bound := BindNumeric(q, Texts(args));
    } else {
      bound := BindPositional(q, Texts(args));
    }
    r := Query(bound);
  }
}
