/** Binding said by regions: a query is comments, quoted texts, markers and the bytes between them. */
module Parts {
  import opened Base
  import opened Lexer
  import opened Regions
  import opened Bind

  /** A piece of a query: text that is kept, or a marker. */
  datatype Part = Keep(text: string) | Slot(name: string)

  /** Every `\?` of a text as `?`. */
  function Unmarked(s: string): string {
    if s == "" then ""
    else if Starts(s, "\\?") then "?" + Unmarked(s[2..])
    else [s[0]] + Unmarked(s[1..])
  }

  /** A way to take the first part off a text, with its length. */
  type Cutter = string -> (Part, nat)

  function Pieces(cut: Cutter, s: string): seq<Part> {
    if s == "" then []
    else
      var (part, n) := cut(s);
      if 0 < n <= |s| then [part] + Pieces(cut, s[n..]) else []
  }

  /** What holds at the end, and of a part and the rest if it holds of the rest, holds of the pieces. */
  lemma {:induction false} PiecesInduct(q: string, cut: Cutter, steady: nat -> bool, holds: (nat, seq<Part>) -> bool,
                                        p: nat)
    requires holds(|q|, [])
    requires CutsOn(q, cut, steady) && Carries(q, cut, steady, holds)
    requires p <= |q| && steady(p)
    ensures holds(p, Pieces(cut, q[p..]))
    decreases |q| - p
  {
    if p < |q| {
      assert CutAt(q, cut, steady, p);
      var (part, n) := cut(q[p..]);
      assert q[p..][n..] == q[p + n..];
      PiecesInduct(q, cut, steady, holds, p + n);
    }
  }

  ghost predicate CutsOn(q: string, cut: Cutter, steady: nat -> bool) {
    forall i: nat | i < |q| && steady(i) :: CutAt(q, cut, steady, i)
  }

  ghost predicate Carries(q: string, cut: Cutter, steady: nat -> bool, holds: (nat, seq<Part>) -> bool) {
    forall i: nat, rest: seq<Part> | i < |q| && steady(i) && holds(i + cut(q[i..]).1, rest) ::
      holds(i, [cut(q[i..]).0] + rest)
  }

  ghost predicate CutAt(q: string, cut: Cutter, steady: nat -> bool, i: nat)
    requires i < |q|
  {
    var (part, n) := cut(q[i..]);
    i < i + n <= |q| && steady(i + n)
  }

  /** A comment or quoted text is kept whole, but for escaped markers in single quotes. A backslash makes the
      byte behind it open nothing, and a `?` no marker. */
  function Front(s: string): (Part, nat) {
    if s == "" then (Keep(""), 0)
    else if s[0] == '?' then (Slot("?"), 1)
    else if Starts(s, "\\?") then (Keep("?"), 2)
    else if Starts(s, "\\\\?") then (Keep("\\?"), 3)
    else if s[0] == '\\' && |s| >= 2 then (Keep(s[..2]), 2)
    else if RegionLen(s) == 0 then (Keep(s[..1]), 1)
    else (Keep(if s[0] == '\'' then Unmarked(s[..RegionLen(s)]) else s[..RegionLen(s)]), RegionLen(s))
  }

  const QUESTIONS: Cutter := s => Front(s)

  /** The parts with the markers replaced in order, from the k-th literal on. */
  function Filled(parts: seq<Part>, lits: seq<string>, k: nat): string {
    if parts == [] then ""
    else match parts[0]
      case Keep(text) => text + Filled(parts[1..], lits, k)
      case Slot(_) => (if k < |lits| then lits[k] else "") + Filled(parts[1..], lits, k + 1)
  }

  function Slots(parts: seq<Part>): nat {
    if parts == [] then 0 else (if parts[0].Slot? then 1 else 0) + Slots(parts[1..])
  }

  // ---------------------------------------------------------------- regions are copied

  /** The rewriting from `i` in `ctx` on: `text`, and then the rewriting from `e` on in raw text. */
  ghost predicate Gives(q: string, i: nat, ctx: Ctx, lits: seq<string>, k: nat, text: string, e: nat) {
    && e <= |q| && Positional(q, Steps(q), i, ctx, lits, k) == text + Positional(q, Steps(q), e, Raw, lits, k)
    && Marks(q, Steps(q), i, ctx) == Marks(q, Steps(q), e, Raw)
  }

  lemma GivesToken(q: string, i: nat, ctx: Ctx, lits: seq<string>, k: nat, text: string, e: nat)
    requires i < |q| && !EscapedMark(q, i, ctx) && !Mark(q, i, ctx)
    requires var s := Step(q, i, ctx); Gives(q, s.next, s.ctx, lits, k, text, e)
    ensures Gives(q, i, ctx, lits, k, q[i..Step(q, i, ctx).next] + text, e)
  {
    var s := Step(q, i, ctx);
    assert Steps(q)(i, ctx) == s;
    var rest := Positional(q, Steps(q), e, Raw, lits, k);
    assert q[i..s.next] + (text + rest) == (q[i..s.next] + text) + rest;
  }

  lemma GivesEnd(q: string, ctx: Ctx, lits: seq<string>, k: nat)
    ensures Gives(q, |q|, ctx, lits, k, "", |q|)
  {
  }

  lemma GivesHere(q: string, i: nat, lits: seq<string>, k: nat)
    requires i <= |q|
    ensures Gives(q, i, Raw, lits, k, "", i)
  {
    assert "" + Positional(q, Steps(q), i, Raw, lits, k) == Positional(q, Steps(q), i, Raw, lits, k);
  }

  lemma {:induction false} ProtectedKept(q: string, i: nat, ctx: Ctx, e: nat, lits: seq<string>, k: nat)
    requires i <= e <= |q| && Protected(q, i, ctx, e) && ctx != Single
    ensures Gives(q, i, ctx, lits, k, q[i..e], e)
    decreases |q| - i
  {
    if i == e {
      assert q[i..e] == "";
      if ctx == Raw { GivesHere(q, i, lits, k); } else { GivesEnd(q, ctx, lits, k); }
    } else {
      var s := Step(q, i, ctx);
      ProtectedWithin(q, s.next, s.ctx, e);
      ProtectedKept(q, s.next, s.ctx, e, lits, k);
      GivesToken(q, i, ctx, lits, k, q[s.next..e], e);
      assert q[i..s.next] + q[s.next..e] == q[i..e];
    }
  }

  lemma ProtectedWithin(q: string, i: nat, ctx: Ctx, e: nat)
    requires i <= |q| && Protected(q, i, ctx, e)
    ensures i <= e
  {
  }

  // ---------------------------------------------------------------- single-quoted texts

  lemma UnmarkedOne(s: string)
    requires s != "" && !Starts(s, "\\?")
    ensures Unmarked(s) == [s[0]] + Unmarked(s[1..])
  {
  }

  /** A token of a single-quoted text that is no escaped marker is kept. */
  lemma UnmarkedToken(q: string, i: nat, n: nat, e: nat)
    requires i < n <= e <= |q| && n <= i + 2 && !Starts(q[i..e], "\\?") && (n == i + 2 ==> q[i + 1] == '\'')
    ensures Unmarked(q[i..e]) == q[i..n] + Unmarked(q[n..e])
  {
    UnmarkedOne(q[i..e]);
    assert q[i..e][1..] == q[i + 1..e];
    if n == i + 2 {
      assert q[i + 1..e][0] == '\'';
      UnmarkedOne(q[i + 1..e]);
      assert q[i + 1..e][1..] == q[i + 2..e];
      assert [q[i]] + ([q[i + 1]] + Unmarked(q[n..e])) == q[i..n] + Unmarked(q[n..e]);
    }
  }

  lemma GivesEscaped(q: string, i: nat, ctx: Ctx, lits: seq<string>, k: nat, text: string, e: nat)
    requires i < |q| && EscapedMark(q, i, ctx) && Gives(q, i + 2, ctx, lits, k, text, e)
    ensures Gives(q, i, ctx, lits, k, "?" + text, e)
  {
    var rest := Positional(q, Steps(q), e, Raw, lits, k);
    assert "?" + (text + rest) == ("?" + text) + rest;
  }

  /** What comes of a token in single quotes: it stays there, or closes them. */
  lemma SingleStep(q: string, i: nat, e: nat, end: Ctx)
    requires i < e && i < |q| && Dwells(q, i, Single, e, end) && (end == Raw || e == |q|)
    ensures var s := Step(q, i, Single);
      && s.next <= e && (s.next == i + 2 ==> q[i + 1] == '\'')
      && (s.ctx == Single ==> Dwells(q, s.next, Single, e, end))
      && (s.ctx != Single ==> s == Lexed(Raw, e) && end == Raw)
  {
    var s := Step(q, i, Single);
    if s.ctx == Single && Dwells(q, s.next, Single, e, end) { DwellsReaches(q, s.next, Single, e, end); }
  }

  lemma SingleEscaped(q: string, i: nat, e: nat, end: Ctx)
    requires i < e && i < |q| && Dwells(q, i, Single, e, end) && (end == Raw || e == |q|) && EscapedMark(q, i, Single)
    ensures i + 2 <= e && Dwells(q, i + 2, Single, e, end)
  {
    SingleStep(q, i, e, end);
    assert Step(q, i, Single) == Lexed(Single, i + 1) && Step(q, i + 1, Single) == Lexed(Single, i + 2);
    if i + 1 < e { SingleStep(q, i + 1, e, end); }
  }

  lemma {:induction false} SingleKept(q: string, i: nat, e: nat, end: Ctx, lits: seq<string>, k: nat)
    requires i <= e <= |q| && Dwells(q, i, Single, e, end) && (end == Raw || e == |q|)
    ensures Gives(q, i, Single, lits, k, Unmarked(q[i..e]), e)
    decreases |q| - i
  {
    if i == e {
      assert q[i..e] == "";
      GivesEnd(q, Single, lits, k);
    } else if EscapedMark(q, i, Single) {
      SingleEscaped(q, i, e, end);
      SingleKept(q, i + 2, e, end, lits, k);
      GivesEscaped(q, i, Single, lits, k, Unmarked(q[i + 2..e]), e);
      assert q[i..e][2..] == q[i + 2..e];
    } else {
      var s := Step(q, i, Single);
      SingleStep(q, i, e, end);
      assert !Starts(q[i..e], "\\?") by { if e > i + 1 { assert q[i..e][1] == q[i + 1] && q[i..e][0] == q[i]; } }
      UnmarkedToken(q, i, s.next, e);
      if s.ctx == Single {
        SingleKept(q, s.next, e, end, lits, k);
      } else {
        assert q[s.next..e] == "";
        GivesHere(q, e, lits, k);
      }
      GivesToken(q, i, Single, lits, k, Unmarked(q[s.next..e]), e);
    }
  }

  // ---------------------------------------------------------------- the whole query

  lemma SingleRegion(q: string, p: nat, e: nat, lits: seq<string>, k: nat)
    requires p < |q| && !Escaped(q, p) && q[p] == '\'' && e == p + 1 + QuoteEnd(q[p + 1..], '\'')
    ensures Gives(q, p, Raw, lits, k, Unmarked(q[p..e]), e)
  {
    var t := q[p + 1..];
    QuoteOpens(q, p, Single);
    QuoteDwells(q, p + 1, Single, '\'');
    QuoteEndOpen(t, '\'');
    SingleKept(q, p + 1, e, if QuoteCloses(t, '\'') then Raw else Single, lits, k);
    GivesToken(q, p, Raw, lits, k, Unmarked(q[p + 1..e]), e);
    assert q[p..e][0] == '\'';
    UnmarkedToken(q, p, p + 1, e);
  }

  lemma OtherRegion(q: string, p: nat, e: nat, lits: seq<string>, k: nat)
    requires p < |q| && !Escaped(q, p) && q[p] != '\\' && q[p] != '?' && q[p] != '\''
    requires e == p + RegionLen(q[p..]) && p < e
    ensures Gives(q, p, Raw, lits, k, q[p..e], e)
  {
    var s := Step(q, p, Raw);
    RegionProtected(q, p, e);
    ProtectedWithin(q, s.next, s.ctx, e);
    ProtectedKept(q, s.next, s.ctx, e, lits, k);
    GivesToken(q, p, Raw, lits, k, q[s.next..e], e);
    assert q[p..s.next] + q[s.next..e] == q[p..e];
  }

  /** The front of the text from `p` on: the marker, or the text that is kept of it. */
  ghost predicate Fronts(q: string, p: nat, lits: seq<string>, k: nat, part: Part, e: nat) {
    match part
    case Keep(text) => Gives(q, p, Raw, lits, k, text, e)
    case Slot(_) => p < |q| && e == p + 1 && !EscapedMark(q, p, Raw) && Mark(q, p, Raw)
  }

  lemma PlainKept(q: string, p: nat, lits: seq<string>, k: nat)
    requires p < |q| && q[p] != '?' && !EscapedMark(q, p, Raw) && Step(q, p, Raw) == Lexed(Raw, p + 1)
    ensures Gives(q, p, Raw, lits, k, q[p..p + 1], p + 1)
  {
    GivesHere(q, p + 1, lits, k);
    GivesToken(q, p, Raw, lits, k, "", p + 1);
    assert q[p..p + 1] + "" == q[p..p + 1];
  }

  /** A backslash that is not escaped, and what follows it. */
  lemma PairKept(q: string, p: nat, lits: seq<string>, k: nat)
    requires p + 1 < |q| && !Escaped(q, p) && q[p] == '\\' && q[p + 1] != '?'
    ensures Starts(q[p..], "\\\\?") ==> Gives(q, p, Raw, lits, k, "\\?", p + 3)
    ensures !Starts(q[p..], "\\\\?") ==> Gives(q, p, Raw, lits, k, q[p..p + 2], p + 2)
  {
    PairSteps(q, p);
    assert q[p..][0] == q[p] && q[p..][1] == q[p + 1] && (p + 2 < |q| ==> q[p..][2] == q[p + 2]);
    if Starts(q[p..], "\\\\?") {
      PairMarked(q, p, lits, k);
    } else {
      PlainKept(q, p + 1, lits, k);
      GivesToken(q, p, Raw, lits, k, q[p + 1..p + 2], p + 2);
      assert q[p..p + 1] + q[p + 1..p + 2] == q[p..p + 2];
    }
  }

  lemma PairSteps(q: string, p: nat)
    requires p + 1 < |q| && !Escaped(q, p) && q[p] == '\\'
    ensures Step(q, p, Raw) == Lexed(Raw, p + 1) && Step(q, p + 1, Raw) == Lexed(Raw, p + 2)
  {
    PairEven(q, p);
  }

  /** A backslash before an escaped marker. */
  lemma PairMarked(q: string, p: nat, lits: seq<string>, k: nat)
    requires p + 2 < |q| && q[p] == '\\' && q[p + 1] == '\\' && q[p + 2] == '?'
    requires Step(q, p, Raw) == Lexed(Raw, p + 1)
    ensures Gives(q, p, Raw, lits, k, "\\?", p + 3)
  {
    GivesHere(q, p + 3, lits, k);
    GivesEscaped(q, p + 1, Raw, lits, k, "", p + 3);
    GivesToken(q, p, Raw, lits, k, "?" + "", p + 3);
    assert q[p..p + 1] + ("?" + "") == "\\?";
  }

  /** The front of the text from `p` on is as long as it should be, and nothing is escaped behind it. */
  ghost predicate FrontFits(q: string, p: nat, lits: seq<string>, k: nat, part: Part, n: nat) {
    0 < n && p + n <= |q| && Fronts(q, p, lits, k, part, p + n) && (p + n == |q| || !Escaped(q, p + n))
  }

  /** What the front is when it begins with a backslash. */
  lemma BackslashText(t: string)
    requires t != "" && t[0] == '\\'
    ensures Front(t) ==
      if |t| == 1 then (Keep(t), 1)
      else if t[1] == '?' then (Keep("?"), 2)
      else if Starts(t, "\\\\?") then (Keep("\\?"), 3)
      else (Keep(t[..2]), 2)
  {
    if |t| == 1 { assert t[..1] == t; }
  }

  lemma BackslashFront(q: string, p: nat, lits: seq<string>, k: nat)
    requires p < |q| && !Escaped(q, p) && q[p] == '\\'
    ensures FrontFits(q, p, lits, k, Front(q[p..]).0, Front(q[p..]).1)
  {
    var t := q[p..];
    assert t[0] == q[p] && (p + 1 < |q| ==> t[1] == q[p + 1]);
    BackslashText(t);
    if p + 1 == |q| {
      assert Step(q, p, Raw) == Lexed(Raw, p + 1);
      PlainKept(q, p, lits, k);
      assert t == q[p..p + 1];
    } else if q[p + 1] == '?' {
      GivesHere(q, p + 2, lits, k);
      GivesEscaped(q, p, Raw, lits, k, "", p + 2);
      assert "?" + "" == "?";
    } else {
      BackslashPair(q, p, lits, k);
    }
  }

  lemma BackslashPair(q: string, p: nat, lits: seq<string>, k: nat)
    requires p + 1 < |q| && !Escaped(q, p) && q[p] == '\\' && q[p + 1] != '?'
    ensures Starts(q[p..], "\\\\?") ==> FrontFits(q, p, lits, k, Keep("\\?"), 3)
    ensures !Starts(q[p..], "\\\\?") ==> FrontFits(q, p, lits, k, Keep(q[p..][..2]), 2)
  {
    var t := q[p..];
    PairEven(q, p);
    PairKept(q, p, lits, k);
    assert p + 2 < |q| ==> t[2] == q[p + 2];
    assert t[..2] == q[p..p + 2];
  }

  lemma RegionFront(q: string, p: nat, e: nat, lits: seq<string>, k: nat)
    requires p < |q| && !Escaped(q, p) && q[p] != '\\' && q[p] != '?' && e == p + RegionLen(q[p..]) && p < e
    ensures FrontFits(q, p, lits, k, Keep(if q[p] == '\'' then Unmarked(q[p..e]) else q[p..e]), e - p)
  {
    if q[p] == '\'' {
      assert q[p..][0] == q[p] && q[p..][1..] == q[p + 1..];
      SingleRegion(q, p, e, lits, k);
    } else {
      OtherRegion(q, p, e, lits, k);
    }
    if e < |q| { RegionEven(q, p, e); }
  }

  /** What the front is when it is neither a marker nor a backslash. */
  lemma FrontText(q: string, p: nat, e: nat)
    requires p < |q| && q[p] != '\\' && q[p] != '?' && e == p + RegionLen(q[p..])
    ensures e == p ==> Front(q[p..]) == (Keep(q[p..p + 1]), 1)
    ensures e > p ==> Front(q[p..]) == (Keep(if q[p] == '\'' then Unmarked(q[p..e]) else q[p..e]), e - p)
  {
    var t := q[p..];
    assert t[0] == q[p] && t[..1] == q[p..p + 1] && t[..e - p] == q[p..e];
  }

  lemma TextFront(q: string, p: nat, lits: seq<string>, k: nat)
    requires p < |q| && !Escaped(q, p) && q[p] != '\\' && q[p] != '?'
    ensures FrontFits(q, p, lits, k, Front(q[p..]).0, Front(q[p..]).1)
  {
    var e := p + RegionLen(q[p..]);
    FrontText(q, p, e);
    if e == p {
      NoRegion(q, p);
      PlainKept(q, p, lits, k);
    } else {
      RegionFront(q, p, e, lits, k);
    }
  }

  lemma FrontIs(q: string, p: nat, lits: seq<string>, k: nat, cut: Cutter)
    requires p < |q| && !Escaped(q, p) && cut == QUESTIONS
    ensures FrontFits(q, p, lits, k, cut(q[p..]).0, cut(q[p..]).1)
  {
    if q[p] == '\\' {
      BackslashFront(q, p, lits, k);
    } else if q[p] == '?' {
      assert q[p..][0] == q[p];
    } else {
      TextFront(q, p, lits, k);
    }
  }

  lemma NoRegion(q: string, p: nat)
    requires p < |q| && !Escaped(q, p) && RegionLen(q[p..]) == 0
    ensures Step(q, p, Raw) == Lexed(Raw, p + 1)
  {
    assert q[p..][0] == q[p] && (p + 1 < |q| ==> q[p..][1] == q[p + 1]);
  }

  /** The rewriting from `p` on is that of the parts. */
  ghost predicate Agrees(q: string, p: nat, lits: seq<string>, k: nat, parts: seq<Part>) {
    Positional(q, Steps(q), p, Raw, lits, k) == Filled(parts, lits, k) && Marks(q, Steps(q), p, Raw) == Slots(parts)
  }

  lemma AgreesNext(q: string, p: nat, lits: seq<string>, k: nat, part: Part, n: nat, rest: seq<Part>)
    requires p < |q| && FrontFits(q, p, lits, k, part, n)
    requires Agrees(q, p + n, lits, if part.Slot? then k + 1 else k, rest)
    ensures Agrees(q, p, lits, k, [part] + rest)
  {
    assert ([part] + rest)[1..] == rest;
  }

  /** The cutter takes parts off that fit the rewriting. */
  ghost predicate CutsWell(q: string, lits: seq<string>, cut: Cutter) {
    forall p: nat, k: nat | p < |q| && !Escaped(q, p) :: FrontFits(q, p, lits, k, cut(q[p..]).0, cut(q[p..]).1)
  }

  lemma AgreesAtEnd(q: string, lits: seq<string>, k: nat)
    ensures Agrees(q, |q|, lits, k, [])
  {
  }

  lemma {:induction false} PartsFrom(q: string, p: nat, lits: seq<string>, k: nat, cut: Cutter)
    requires p <= |q| && (p == |q| || !Escaped(q, p)) && CutsWell(q, lits, cut)
    ensures Agrees(q, p, lits, k, Pieces(cut, q[p..]))
    decreases |q| - p
  {
    if p == |q| {
      AgreesAtEnd(q, lits, k);
    } else {
      var (part, n) := cut(q[p..]);
      assert FrontFits(q, p, lits, k, part, n);
      assert q[p..][n..] == q[p + n..];
      PartsFrom(q, p + n, lits, if part.Slot? then k + 1 else k, cut);
      AgreesNext(q, p, lits, k, part, n, Pieces(cut, q[p + n..]));
    }
  }

  lemma QuestionsCut(q: string, lits: seq<string>)
    ensures CutsWell(q, lits, QUESTIONS)
  {
    forall p: nat, k: nat | p < |q| && !Escaped(q, p)
      ensures FrontFits(q, p, lits, k, QUESTIONS(q[p..]).0, QUESTIONS(q[p..]).1)
    {
      FrontIs(q, p, lits, k, QUESTIONS);
    }
  }

  /** Binding answers by the parts of the query: an error exactly if an argument that a marker needs cannot
      be rendered or is missing, else the kept texts with the arguments between them. */
  lemma BoundParts(q: string, args: seq<Rendered>, r: Bound)
    requires PositionalSpec(q, args, r)
    ensures var parts := Pieces(QUESTIONS, q);
      if exists k :: 0 <= k < Slots(parts) && k < |args| && args[k].None? then r == FormatError
      else if Slots(parts) > |args| then r == NoArgument
      else r == Bound(Filled(parts, Literals(args), 0))
  {
    assert q[0..] == q;
    QuestionsCut(q, Literals(args));
    PartsFrom(q, 0, Literals(args), 0, QUESTIONS);
  }

  /** A marker behind a line comment is a marker. */
  method BindBehindComment(c: string, lit: string) returns (r: Bound)
    requires '\n' !in c
    ensures r == Bound("--" + c + "\n" + lit)
  {
    var q := "--" + c + "\n?";
    var args := [Some(lit)];
    r := BindPositional(q, args);
    BoundParts(q, args, r);
    CommentPieces(c, q, Literals(args));
    assert Literals(args)[0] == lit;
  }

  lemma CommentPieces(c: string, q: string, lits: seq<string>)
    requires '\n' !in c && q == "--" + c + "\n?" && |lits| == 1
    ensures Slots(Pieces(QUESTIONS, q)) == 1 && Filled(Pieces(QUESTIONS, q), lits, 0) == "--" + c + "\n" + lits[0]
  {
    var n := |c| + 3;
    CommentFront(c, q);
    assert q[n..] == "?" && QUESTIONS("?") == (Slot("?"), 1);
    assert Pieces(QUESTIONS, "?"[1..]) == [];
    assert Pieces(QUESTIONS, "?") == [Slot("?")];
    assert Pieces(QUESTIONS, q) == [Keep(q[..n]), Slot("?")];
    FilledTwo(q[..n], "?", lits);
  }

  lemma CommentFront(c: string, q: string)
    requires '\n' !in c && q == "--" + c + "\n?"
    ensures QUESTIONS(q) == (Keep(q[..|c| + 3]), |c| + 3)
  {
    assert q[2..] == c + "\n?" && LineEnd(q[2..]) == |c| + 1;
  }

  lemma FilledTwo(text: string, name: string, lits: seq<string>)
    requires |lits| == 1
    ensures Slots([Keep(text), Slot(name)]) == 1 && Filled([Keep(text), Slot(name)], lits, 0) == text + lits[0]
  {
    var parts, last: seq<Part> := [Keep(text), Slot(name)], [Slot(name)];
    assert parts[1..] == last && |last[1..]| == 0;
    assert Slots(last) == 1 && Filled(last, lits, 0) == lits[0] + "" == lits[0];
  }
}
