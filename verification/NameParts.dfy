/** The same for numbered and named markers, which are names in raw text. */
module NameParts {
  import opened Base
  import opened Lexer
  import opened Regions
  import opened Bind
  import opened BindNames
  import opened Parts

  /** A style whose names hold no backslash and whose lead opens nothing. */
  predicate Ordinary(style: Style) {
    Plain(style.lead) && style.lead != '\\' && !style.inName('\\')
  }

  /** How many name bytes stand at the front. */
  function NameLen(s: string, style: Style): (n: nat)
    ensures n <= |s| && (forall k | 0 <= k < n :: style.inName(s[k])) && (n < |s| ==> !style.inName(s[n]))
  {
    if s != "" && style.inName(s[0]) then 1 + NameLen(s[1..], style) else 0
  }

  predicate MarksName(s: string, style: Style) {
    |s| >= 2 && s[0] == style.lead && style.inName(s[1])
  }

  /** Comments and quoted texts are kept whole. A backslash makes the byte behind it open nothing, but a name
      behind it is a marker all the same. */
  function NameFront(s: string, style: Style): (Part, nat) {
    if s == "" then (Keep(""), 0)
    else if MarksName(s, style) then (Slot(s[..1 + NameLen(s[1..], style)]), 1 + NameLen(s[1..], style))
    else if s[0] == '\\' && |s| >= 2 && !MarksName(s[1..], style) then (Keep(s[..2]), 2)
    else if RegionLen(s) == 0 then (Keep(s[..1]), 1)
    else (Keep(s[..RegionLen(s)]), RegionLen(s))
  }

  function NameCutter(style: Style): Cutter {
    s => NameFront(s, style)
  }

  function Value(params: map<string, string>, name: string): string {
    if name in params then params[name] else ""
  }

  /** The parts with the markers replaced by name. */
  function Named(parts: seq<Part>, params: map<string, string>): string {
    if parts == [] then ""
    else match parts[0]
      case Keep(text) => text + Named(parts[1..], params)
      case Slot(name) => Value(params, name) + Named(parts[1..], params)
  }

  function SlotNames(parts: seq<Part>): set<string> {
    if parts == [] then {}
    else if parts[0].Slot? then {parts[0].name} + SlotNames(parts[1..])
    else SlotNames(parts[1..])
  }

  // ---------------------------------------------------------------- regions are copied

  /** What a rewriting goes by. */
  datatype Names = Names(style: Style, params: map<string, string>)

  ghost function From(q: string, i: nat, ctx: Ctx, m: Names): (string, set<string>) {
    (Rewritten(q, Steps(q), i, ctx, m.style, m.params), MarkNames(q, Steps(q), i, ctx, m.style))
  }

  /** The rewriting from `i` in `ctx` on: `text`, and then the rewriting from `e` on in raw text. */
  ghost predicate Yields(q: string, i: nat, ctx: Ctx, m: Names, text: string, e: nat) {
    e <= |q| && From(q, i, ctx, m).0 == text + From(q, e, Raw, m).0 && From(q, i, ctx, m).1 == From(q, e, Raw, m).1
  }

  lemma YieldsToken(q: string, i: nat, ctx: Ctx, m: Names, text: string, e: nat)
    requires i < |q| && !NameMark(q, i, ctx, m.style)
    requires var s := Step(q, i, ctx); Yields(q, s.next, s.ctx, m, text, e)
    ensures Yields(q, i, ctx, m, q[i..Step(q, i, ctx).next] + text, e)
  {
    var s := Step(q, i, ctx);
    assert Steps(q)(i, ctx) == s;
    var rest := From(q, e, Raw, m).0;
    assert q[i..s.next] + (text + rest) == (q[i..s.next] + text) + rest;
  }

  lemma YieldsHere(q: string, i: nat, ctx: Ctx, m: Names)
    requires i <= |q| && (ctx == Raw || i == |q|)
    ensures Yields(q, i, ctx, m, "", i)
  {
    assert "" + From(q, i, ctx, m).0 == From(q, i, ctx, m).0;
  }

  lemma {:induction false} ProtectedStays(q: string, i: nat, ctx: Ctx, e: nat, m: Names)
    requires i <= e <= |q| && Protected(q, i, ctx, e)
    ensures Yields(q, i, ctx, m, q[i..e], e)
    decreases |q| - i
  {
    if i == e {
      assert q[i..e] == "";
      YieldsHere(q, i, ctx, m);
    } else {
      var s := Step(q, i, ctx);
      ProtectedWithin(q, s.next, s.ctx, e);
      ProtectedStays(q, s.next, s.ctx, e, m);
      YieldsToken(q, i, ctx, m, q[s.next..e], e);
      assert q[i..s.next] + q[s.next..e] == q[i..e];
    }
  }

  // ---------------------------------------------------------------- the whole query

  /** Nothing that could open is escaped here. */
  ghost predicate Steady(q: string, p: nat, style: Style) {
    p == |q| || (p < |q| && (!Escaped(q, p) || NameMark(q, p, Raw, style)))
  }

  ghost predicate NameFits(q: string, p: nat, m: Names, part: Part, n: nat) {
    && p < p + n <= |q| && Steady(q, p + n, m.style)
    && match part
       case Keep(text) => Yields(q, p, Raw, m, text, p + n)
       case Slot(name) => NameMark(q, p, Raw, m.style) && p + n == NameEnd(q, p + 1, m.style) && name == q[p..p + n]
  }

  lemma MarksNameAt(q: string, p: nat, style: Style)
    requires p < |q|
    ensures MarksName(q[p..], style) <==> NameMark(q, p, Raw, style)
  {
    assert q[p..][0] == q[p] && (p + 1 < |q| ==> q[p..][1] == q[p + 1]);
  }

  lemma NameEndIs(q: string, j: nat, style: Style)
    requires j <= |q|
    ensures NameEnd(q, j, style) == j + NameLen(q[j..], style)
  {
    var n := NameLen(q[j..], style);
    forall k | j <= k < j + n ensures style.inName(q[k]) { assert q[j..][k - j] == q[k]; }
    if j + n < |q| { assert q[j..][n] == q[j + n]; }
  }

  lemma SlotFits(q: string, p: nat, m: Names)
    requires p < |q| && Ordinary(m.style) && NameMark(q, p, Raw, m.style)
    ensures NameFits(q, p, m, NameFront(q[p..], m.style).0, NameFront(q[p..], m.style).1)
  {
    var t := q[p..];
    MarksNameAt(q, p, m.style);
    NameEndIs(q, p + 1, m.style);
    assert t[1..] == q[p + 1..];
    var e := p + 1 + NameLen(t[1..], m.style);
    assert t[..e - p] == q[p..e];
    assert m.style.inName(q[e - 1]);
    assert Run(q, e) == 0;
  }

  lemma PlainYields(q: string, p: nat, m: Names)
    requires p < |q| && !NameMark(q, p, Raw, m.style) && Step(q, p, Raw) == Lexed(Raw, p + 1)
    ensures Yields(q, p, Raw, m, q[p..p + 1], p + 1)
  {
    YieldsHere(q, p + 1, Raw, m);
    YieldsToken(q, p, Raw, m, "", p + 1);
    assert q[p..p + 1] + "" == q[p..p + 1];
  }

  lemma PairYields(q: string, p: nat, m: Names)
    requires p + 1 < |q| && !Escaped(q, p) && q[p] == '\\' && Ordinary(m.style) && !NameMark(q, p + 1, Raw, m.style)
    ensures Yields(q, p, Raw, m, q[p..p + 2], p + 2)
  {
    PairEven(q, p);
    assert Step(q, p, Raw) == Lexed(Raw, p + 1) && Step(q, p + 1, Raw) == Lexed(Raw, p + 2);
    PlainYields(q, p + 1, m);
    YieldsToken(q, p, Raw, m, q[p + 1..p + 2], p + 2);
    assert q[p..p + 1] + q[p + 1..p + 2] == q[p..p + 2];
  }

  lemma BackslashFits(q: string, p: nat, m: Names)
    requires p < |q| && !Escaped(q, p) && q[p] == '\\' && Ordinary(m.style)
    ensures NameFits(q, p, m, NameFront(q[p..], m.style).0, NameFront(q[p..], m.style).1)
  {
    var t := q[p..];
    assert t[0] == q[p] && t[..1] == q[p..p + 1];
    MarksNameAt(q, p, m.style);
    if p + 1 < |q| {
      assert t[1..] == q[p + 1..] && t[1] == q[p + 1];
      MarksNameAt(q, p + 1, m.style);
    }
    if p + 1 < |q| && !NameMark(q, p + 1, Raw, m.style) {
      PairEven(q, p);
      PairYields(q, p, m);
      assert t[..2] == q[p..p + 2];
    } else {
      assert Step(q, p, Raw) == Lexed(Raw, p + 1);
      PlainYields(q, p, m);
    }
  }

  lemma RegionYields(q: string, p: nat, e: nat, m: Names)
    requires p < |q| && !Escaped(q, p) && !NameMark(q, p, Raw, m.style) && e == p + RegionLen(q[p..]) && p < e
    ensures Yields(q, p, Raw, m, q[p..e], e)
  {
    var s := Step(q, p, Raw);
    RegionProtected(q, p, e);
    ProtectedWithin(q, s.next, s.ctx, e);
    ProtectedStays(q, s.next, s.ctx, e, m);
    YieldsToken(q, p, Raw, m, q[s.next..e], e);
    assert q[p..s.next] + q[s.next..e] == q[p..e];
  }

  lemma TextFits(q: string, p: nat, e: nat, m: Names)
    requires p < |q| && !Escaped(q, p) && q[p] != '\\' && !NameMark(q, p, Raw, m.style) && e == p + RegionLen(q[p..])
    ensures NameFits(q, p, m, Keep(if e == p then q[p..p + 1] else q[p..e]), if e == p then 1 else e - p)
  {
    if e == p {
      NoRegion(q, p);
      PlainYields(q, p, m);
      assert Run(q, p + 1) == 0;
    } else {
      RegionYields(q, p, e, m);
      if e < |q| { RegionEven(q, p, e); }
    }
  }

  lemma NameFrontFits(q: string, p: nat, m: Names)
    requires p < |q| && !Escaped(q, p) && q[p] != '\\' && !NameMark(q, p, Raw, m.style)
    ensures NameFits(q, p, m, NameFront(q[p..], m.style).0, NameFront(q[p..], m.style).1)
  {
    var e := p + RegionLen(q[p..]);
    TextFits(q, p, e, m);
    NameFrontText(q, p, e, m.style);
  }

  lemma NameFrontText(q: string, p: nat, e: nat, style: Style)
    requires p < |q| && q[p] != '\\' && !NameMark(q, p, Raw, style) && e == p + RegionLen(q[p..])
    ensures NameFront(q[p..], style) ==
            (Keep(if e == p then q[p..p + 1] else q[p..e]), if e == p then 1 else e - p)
  {
    var t := q[p..];
    MarksNameAt(q, p, style);
    assert t[0] == q[p] && t[..1] == q[p..p + 1] && t[..e - p] == q[p..e];
  }

  lemma NameFrontIs(q: string, p: nat, m: Names, cut: Cutter)
    requires p < |q| && Steady(q, p, m.style) && Ordinary(m.style) && cut == NameCutter(m.style)
    ensures NameFits(q, p, m, cut(q[p..]).0, cut(q[p..]).1)
  {
    if NameMark(q, p, Raw, m.style) {
      SlotFits(q, p, m);
    } else if q[p] == '\\' {
      BackslashFits(q, p, m);
    } else {
      NameFrontFits(q, p, m);
    }
  }

  ghost predicate NamesAgree(q: string, p: nat, m: Names, parts: seq<Part>) {
    From(q, p, Raw, m) == (Named(parts, m.params), SlotNames(parts))
  }

  lemma NameRewritten(q: string, p: nat, m: Names)
    requires p < |q| && NameMark(q, p, Raw, m.style)
    ensures var e := NameEnd(q, p + 1, m.style); var name := q[p..e];
      && From(q, p, Raw, m).0 == Value(m.params, name) + From(q, e, Raw, m).0
      && From(q, p, Raw, m).1 == {name} + From(q, e, Raw, m).1
  {
  }

  lemma NamesAgreeNext(q: string, p: nat, m: Names, part: Part, n: nat, rest: seq<Part>)
    requires p < |q| && NameFits(q, p, m, part, n) && NamesAgree(q, p + n, m, rest)
    ensures NamesAgree(q, p, m, [part] + rest)
  {
    assert ([part] + rest)[1..] == rest;
    if part.Slot? { NameRewritten(q, p, m); }
  }

  lemma NamesAgreeAtEnd(q: string, m: Names)
    ensures NamesAgree(q, |q|, m, [])
  {
  }

  ghost function SteadyOf(q: string, style: Style): nat -> bool {
    (p: nat) => Steady(q, p, style)
  }

  ghost function AgreeOf(q: string, m: Names): (nat, seq<Part>) -> bool {
    (p: nat, parts: seq<Part>) => NamesAgree(q, p, m, parts)
  }

  ghost predicate NamesCut(q: string, m: Names, cut: Cutter) {
    forall p: nat {:trigger NameCutAt(q, p, m, cut)} | p < |q| && Steady(q, p, m.style) :: NameCutAt(q, p, m, cut)
  }

  ghost predicate NameCutAt(q: string, p: nat, m: Names, cut: Cutter)
    requires p < |q|
  {
    NameFits(q, p, m, cut(q[p..]).0, cut(q[p..]).1)
  }

  lemma NamesCutAll(q: string, m: Names, cut: Cutter)
    requires Ordinary(m.style) && cut == NameCutter(m.style)
    ensures NamesCut(q, m, cut)
  {
    forall p: nat | p < |q| && Steady(q, p, m.style) ensures NameCutAt(q, p, m, cut) { NameFrontIs(q, p, m, cut); }
  }

  lemma NamesCutAt(q: string, m: Names, cut: Cutter, i: nat)
    requires NamesCut(q, m, cut) && i < |q| && SteadyOf(q, m.style)(i)
    ensures CutAt(q, cut, SteadyOf(q, m.style), i) && NameFits(q, i, m, cut(q[i..]).0, cut(q[i..]).1)
  {
    assert NameCutAt(q, i, m, cut);
  }

  lemma NamesCutOn(q: string, m: Names, cut: Cutter)
    requires NamesCut(q, m, cut)
    ensures CutsOn(q, cut, SteadyOf(q, m.style))
  {
    forall i: nat | i < |q| && SteadyOf(q, m.style)(i) ensures CutAt(q, cut, SteadyOf(q, m.style), i) {
      NamesCutAt(q, m, cut, i);
    }
  }

  lemma NamesCarryAt(q: string, m: Names, cut: Cutter, i: nat, rest: seq<Part>)
    requires NamesCut(q, m, cut) && i < |q| && SteadyOf(q, m.style)(i) && AgreeOf(q, m)(i + cut(q[i..]).1, rest)
    ensures AgreeOf(q, m)(i, [cut(q[i..]).0] + rest)
  {
    NamesCutAt(q, m, cut, i);
    NamesAgreeNext(q, i, m, cut(q[i..]).0, cut(q[i..]).1, rest);
  }

  lemma NamesCarry(q: string, m: Names, cut: Cutter)
    requires NamesCut(q, m, cut)
    ensures Carries(q, cut, SteadyOf(q, m.style), AgreeOf(q, m))
  {
    var steady, holds := SteadyOf(q, m.style), AgreeOf(q, m);
    forall i: nat, rest: seq<Part> | i < |q| && steady(i) && holds(i + cut(q[i..]).1, rest)
      ensures holds(i, [cut(q[i..]).0] + rest)
    {
      NamesCarryAt(q, m, cut, i, rest);
    }
  }

  /** Substitution answers by the parts of the query: an error exactly if a marker has no parameter, else the
      kept texts with the parameters between them. */
  lemma SubstitutedParts(q: string, style: Style, params: map<string, string>, r: Bound)
    requires NamesSpec(q, style, params, r) && Ordinary(style)
    ensures var parts := Pieces(NameCutter(style), q);
      r == if SlotNames(parts) <= params.Keys then Bound(Named(parts, params)) else NoArgument
  {
    NamesAgreeAll(q, Names(style, params));
  }

  lemma NamesAgreeAll(q: string, m: Names)
    requires Ordinary(m.style)
    ensures NamesAgree(q, 0, m, Pieces(NameCutter(m.style), q))
  {
    var cut := NameCutter(m.style);
    NamesCutAll(q, m, cut);
    NamesCutOn(q, m, cut);
    NamesCarry(q, m, cut);
    NamesAgreeAtEnd(q, m);
    assert q[0..] == q && SteadyOf(q, m.style)(0);
    PiecesInduct(q, cut, SteadyOf(q, m.style), AgreeOf(q, m), 0);
    assert AgreeOf(q, m)(0, Pieces(cut, q)) == NamesAgree(q, 0, m, Pieces(cut, q));
  }

  lemma StylesOrdinary()
    ensures Ordinary(NUMERIC) && Ordinary(NAMED)
  {
  }

  /** A query uses numbered markers exactly if it has such a part, and positional ones likewise. */
  lemma FormatsParts(q: string)
    ensures MarkNames(q, Steps(q), 0, Raw, NUMERIC) == SlotNames(Pieces(NameCutter(NUMERIC), q))
    ensures Marks(q, Steps(q), 0, Raw) == Slots(Pieces(QUESTIONS, q))
  {
    StylesOrdinary();
    NamesAgreeAll(q, Names(NUMERIC, map[]));
    assert q[0..] == q;
    QuestionsCut(q, []);
    PartsFrom(q, 0, [], 0, QUESTIONS);
  }

  /** What the arguments are to a query: the table its names are looked up in. */
  ghost predicate SubstitutesTo(q: string, style: Style, keys: seq<string>, texts: seq<Rendered>, r: Bound)
    requires |keys| == |texts|
  {
    var parts, params := Pieces(NameCutter(style), q), Table(keys, Literals(texts));
    if exists k :: 0 <= k < |texts| && texts[k].None? then r == FormatError
    else if !(SlotNames(parts) <= params.Keys) then r == NoArgument
    else r == Bound(Named(parts, params))
  }

  lemma SubstitutesParts(q: string, style: Style, keys: seq<string>, texts: seq<Rendered>, r: Bound)
    requires |keys| == |texts| && Ordinary(style)
    requires
      if AllRendered(texts, |texts|) then NamesSpec(q, style, Table(keys, Literals(texts)), r) else r == FormatError
    ensures SubstitutesTo(q, style, keys, texts, r)
  {
    if AllRendered(texts, |texts|) { SubstitutedParts(q, style, Table(keys, Literals(texts)), r); }
  }

  /** Binding any arguments to any query, by the parts of the query. */
  lemma ArgsParts(q: string, args: seq<Arg>, r: Outcome)
    requires BindSpec(q, args, r) && args != []
    ensures var numbered, questions := SlotNames(Pieces(NameCutter(NUMERIC), q)), Slots(Pieces(QUESTIONS, q));
      if AnyNamed(args) && AnyUnnamed(args) then r == MixedParams
      else if AnyNamed(args) then
        r.Query? && SubstitutesTo(q, NAMED, Titles(BindNames.Names(args)), Texts(args), r.bound)
      else if numbered != {} && questions > 0 then r == MixedParams
      else if numbered != {} then r.Query? && SubstitutesTo(q, NUMERIC, Dollars(|args|), Texts(args), r.bound)
      else r.Query? && PositionalSpec(q, Texts(args), r.bound)
  {
    FormatsParts(q);
    StylesOrdinary();
    var texts := Texts(args);
    if AnyNamed(args) && !AnyUnnamed(args) {
      SubstitutesParts(q, NAMED, Titles(BindNames.Names(args)), texts, r.bound);
    } else if r.Query? && SlotNames(Pieces(NameCutter(NUMERIC), q)) != {} {
      SubstitutesParts(q, NUMERIC, Dollars(|args|), texts, r.bound);
    }
  }
}
