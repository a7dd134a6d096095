/** What the lexer's contexts mean, said without its steps: where comments and quoted texts end. */
module Regions {
  import opened Base
  import opened Lexer

  // ---------------------------------------------------------------- where a region ends

  predicate Starts(s: string, part: string) {
    part <= s
  }

  /** Behind the first newline, or at the end of the text. */
  function LineEnd(s: string): (n: nat)
    ensures n <= |s| && (forall k | 0 <= k < n - 1 :: s[k] != '\n')
    ensures (n > 0 && s[n - 1] == '\n') || (n == |s| && '\n' !in s)
  {
    if s == "" then 0 else if s[0] == '\n' then 1 else 1 + LineEnd(s[1..])
  }

  /** In a quoted text a backslash and the byte behind it belong together, and so do two delimiters. */
  function QuoteFront(s: string, delim: char): nat {
    if |s| >= 2 && (s[0] == '\\' || (s[0] == delim && s[1] == delim)) then 2 else 1
  }

  predicate Shuts(s: string, delim: char) {
    s != "" && s[0] == delim && QuoteFront(s, delim) == 1
  }

  /** Behind the delimiter that closes a quoted text, whose opening one stands before `s`, or at the end. */
  function QuoteEnd(s: string, delim: char): (n: nat)
    ensures n <= |s|
  {
    if s == "" then 0
    else if Shuts(s, delim) then 1
    else QuoteFront(s, delim) + QuoteEnd(s[QuoteFront(s, delim)..], delim)
  }

  /** The delimiter that closes it is there. */
  predicate QuoteCloses(s: string, delim: char) {
    s != "" && (Shuts(s, delim) || QuoteCloses(s[QuoteFront(s, delim)..], delim))
  }

  /** How many more comments a text opens than it closes. */
  function Depth(s: string): int {
    if s == "" then 0
    else if Starts(s, "/*") then Depth(s[2..]) + 1
    else if Starts(s, "*/") then Depth(s[2..]) - 1
    else Depth(s[1..])
  }

  /** Behind the end of `depth` comments that are open before `s`, or at the end of the text. */
  function BlockEnd(s: string, depth: nat): (n: nat)
    ensures n <= |s|
  {
    if s == "" || depth == 0 then 0
    else if Starts(s, "/*") then 2 + BlockEnd(s[2..], depth + 1)
    else if Starts(s, "*/") then 2 + BlockEnd(s[2..], depth - 1)
    else 1 + BlockEnd(s[1..], depth)
  }

  /** What the front of a text adds to the depth, and how long it is. */
  function FrontDepth(s: string): int {
    if Starts(s, "/*") then 1 else if Starts(s, "*/") then -1 else 0
  }

  function FrontLen(s: string): nat {
    if Starts(s, "/*") || Starts(s, "*/") then 2 else 1
  }

  /** It is the first place at which as many comments have been closed, if there is one. */
  lemma {:induction false} BlockEndFirst(s: string, depth: nat, m: nat)
    requires m <= BlockEnd(s, depth)
    ensures var n := BlockEnd(s, depth);
      && Depth(s[..m]) + depth >= 0 && (m < n ==> Depth(s[..m]) + depth > 0)
      && (m == n < |s| ==> Depth(s[..m]) + depth == 0)
    decreases |s|
  {
    if s != "" && depth > 0 {
      var k := FrontLen(s);
      if m >= k {
        BlockEndFirst(s[k..], depth + FrontDepth(s), m - k);
        DepthFront(s, m);
      } else if m == 1 {
        assert s[..1][1..] == "";
      }
    }
  }

  lemma DepthFront(s: string, m: nat)
    requires s != "" && FrontLen(s) <= m <= |s|
    ensures Depth(s[..m]) == Depth(s[FrontLen(s)..][..m - FrontLen(s)]) + FrontDepth(s)
  {
    assert s[..m][FrontLen(s)..] == s[FrontLen(s)..][..m - FrontLen(s)];
    assert m >= 2 ==> (Starts(s[..m], "/*") <==> Starts(s, "/*")) && (Starts(s[..m], "*/") <==> Starts(s, "*/"));
  }

  // ---------------------------------------------------------------- staying in a region

  /** Lexing from `i` in `ctx` stays there up to `e`, where it is in `end`. */
  ghost predicate Dwells(q: string, i: nat, ctx: Ctx, e: nat, end: Ctx)
    requires i <= |q|
    decreases |q| - i
  {
    (i == e && ctx == end) ||
    (i < e && i < |q| && var s := Step(q, i, ctx);
     (s.ctx == ctx && Dwells(q, s.next, ctx, e, end)) || s == Lexed(end, e))
  }

  lemma {:induction false} DwellsReaches(q: string, i: nat, ctx: Ctx, e: nat, end: Ctx)
    requires i <= |q| && Dwells(q, i, ctx, e, end)
    ensures e <= |q| && Reaches(q, i, ctx, e, end)
    decreases |q| - i
  {
    if i < e {
      var s := Step(q, i, ctx);
      if s == Lexed(end, e) { assert Reaches(q, e, end, e, end); } else { DwellsReaches(q, s.next, ctx, e, end); }
    }
  }

  lemma {:induction false} DwellsOnly(q: string, i: nat, ctx: Ctx, e: nat, end: Ctx, j: nat, ctx': Ctx)
    requires i <= |q| && Dwells(q, i, ctx, e, end) && Reaches(q, i, ctx, j, ctx') && j < e
    ensures ctx' == ctx
    decreases |q| - i
  {
    if i < j { DwellsOnly(q, Step(q, i, ctx).next, ctx, e, end, j, ctx'); }
  }

  /** The newline that ends the line is there. */
  function LineAfter(s: string): Ctx {
    if '\n' in s then Raw else Line
  }

  lemma LineFront(q: string, i: nat)
    requires i < |q|
    ensures q[i] == '\n' ==> LineEnd(q[i..]) == 1 && LineAfter(q[i..]) == Raw
    ensures q[i] != '\n' ==> LineEnd(q[i..]) == 1 + LineEnd(q[i + 1..]) && LineAfter(q[i..]) == LineAfter(q[i + 1..])
  {
    assert q[i..][1..] == q[i + 1..] && q[i..] == [q[i]] + q[i + 1..];
  }

  lemma {:induction false} LineDwells(q: string, i: nat, e: nat, end: Ctx)
    requires i <= |q| && e == i + LineEnd(q[i..]) && end == LineAfter(q[i..])
    ensures Dwells(q, i, Line, e, end)
    decreases |q| - i
  {
    if i < |q| {
      LineFront(q, i);
      if q[i] != '\n' { LineDwells(q, i + 1, e, end); }
    }
  }

  /** From an opening at `p` in raw text, lexing is in `ctx` at every token before `e`, and at `e` in `end`. */
  ghost predicate Covers(q: string, p: nat, e: nat, ctx: Ctx, end: Ctx)
    requires p <= |q|
  {
    Reaches(q, p, Raw, e, end) && forall j, c | p < j < e && Reaches(q, p, Raw, j, c) :: c == ctx
  }

  lemma Region(q: string, p: nat, b: nat, ctx: Ctx, e: nat, end: Ctx)
    requires p < b <= |q| && Step(q, p, Raw) == Lexed(ctx, b) && Dwells(q, b, ctx, e, end)
    ensures Covers(q, p, e, ctx, end)
  {
    DwellsReaches(q, b, ctx, e, end);
    forall j, c | p < j < e && Reaches(q, p, Raw, j, c) ensures c == ctx { DwellsOnly(q, b, ctx, e, end, j, c); }
  }

  // ---------------------------------------------------------------- line comments

  /** Where a line comment's text begins. */
  function LineStart(q: string, p: nat): nat
    requires p < |q|
  {
    if q[p] == '#' then p + 1 else p + 2
  }

  /** A line comment runs to the end of its line: every token in it is comment, and raw text comes back
      behind the newline. */
  lemma LineComment(q: string, p: nat, e: nat)
    requires p < |q| && !Escaped(q, p) && (q[p] == '#' || Starts(q[p..], "--"))
    requires e == LineStart(q, p) + LineEnd(q[LineStart(q, p)..])
    ensures Covers(q, p, e, Line, LineAfter(q[LineStart(q, p)..]))
  {
    var b := LineStart(q, p);
    LineDwells(q, b, e, LineAfter(q[b..]));
    LineOpens(q, p);
    Region(q, p, b, Line, e, LineAfter(q[b..]));
  }

  lemma LineOpens(q: string, p: nat)
    requires p < |q| && !Escaped(q, p) && (q[p] == '#' || Starts(q[p..], "--"))
    ensures LineStart(q, p) <= |q| && Step(q, p, Raw) == Lexed(Line, LineStart(q, p))
  {
    if q[p] != '#' { assert q[p..][0] == q[p] && q[p..][1] == q[p + 1]; }
  }

  // ---------------------------------------------------------------- quoted texts

  function Delimiter(ctx: Ctx): char {
    if ctx == Backtick then '`' else if ctx == Single then '\'' else '"'
  }

  predicate Quotes(ctx: Ctx) {
    ctx == Backtick || ctx == Single || ctx == Double
  }

  /** A backslash that is not escaped and the byte behind it leave nothing escaped. */
  lemma PairEven(q: string, i: nat)
    requires i + 1 < |q| && !Escaped(q, i) && q[i] == '\\'
    ensures Escaped(q, i + 1) && !Escaped(q, i + 2)
  {
    assert Run(q, i + 1) == Run(q, i) + 1;
  }

  lemma PairDwells(q: string, i: nat, ctx: Ctx, e: nat, end: Ctx)
    requires i + 1 < |q| && q[i] == '\\' && Escaped(q, i + 1) && Quotes(ctx)
    requires Dwells(q, i + 2, ctx, e, end) && i + 2 <= e
    ensures Dwells(q, i, ctx, e, end)
  {
    assert Step(q, i, ctx) == Lexed(ctx, i + 1) && Step(q, i + 1, ctx) == Lexed(ctx, i + 2);
    assert Dwells(q, i + 1, ctx, e, end);
  }

  lemma FrontEven(q: string, i: nat, d: char)
    requires i < |q| && !Escaped(q, i) && d != '\\' && !Shuts(q[i..], d)
    ensures var k := QuoteFront(q[i..], d); i + k == |q| || !Escaped(q, i + k)
  {
    assert q[i..][0] == q[i] && (i + 1 < |q| ==> q[i..][1] == q[i + 1]);
    if q[i] == '\\' && i + 1 < |q| { PairEven(q, i); }
  }

  lemma FrontDwells(q: string, i: nat, ctx: Ctx, e: nat, end: Ctx)
    requires i < |q| && !Escaped(q, i) && Quotes(ctx) && !Shuts(q[i..], Delimiter(ctx))
    requires var k := QuoteFront(q[i..], Delimiter(ctx)); i + k <= |q| && Dwells(q, i + k, ctx, e, end) && i + k <= e
    ensures Dwells(q, i, ctx, e, end)
  {
    assert q[i..][0] == q[i] && (i + 1 < |q| ==> q[i..][1] == q[i + 1]);
    if q[i] == '\\' && i + 1 < |q| {
      PairEven(q, i);
      PairDwells(q, i, ctx, e, end);
    }
  }

  lemma ShutDwells(q: string, i: nat, ctx: Ctx)
    requires i < |q| && !Escaped(q, i) && Quotes(ctx) && Shuts(q[i..], Delimiter(ctx))
    ensures Dwells(q, i, ctx, i + 1, Raw)
  {
    assert q[i..][0] == q[i] && (i + 1 < |q| ==> q[i..][1] == q[i + 1]);
    assert Step(q, i, ctx) == Lexed(Raw, i + 1);
  }

  lemma {:induction false} QuoteDwells(q: string, i: nat, ctx: Ctx, d: char)
    requires i <= |q| && (i == |q| || !Escaped(q, i)) && Quotes(ctx) && d == Delimiter(ctx)
    ensures Dwells(q, i, ctx, i + QuoteEnd(q[i..], d), if QuoteCloses(q[i..], d) then Raw else ctx)
    decreases |q| - i
  {
    if i < |q| {
      if Shuts(q[i..], d) {
        ShutDwells(q, i, ctx);
      } else {
        var k := QuoteFront(q[i..], d);
        assert q[i..][k..] == q[i + k..];
        FrontEven(q, i, d);
        QuoteDwells(q, i + k, ctx, d);
        FrontDwells(q, i, ctx, i + k + QuoteEnd(q[i + k..], d), if QuoteCloses(q[i + k..], d) then Raw else ctx);
      }
    }
  }

  /** A quoted text runs to the first delimiter that is neither escaped nor doubled: every token in it is in
      the quotes, and raw text comes back behind that delimiter. */
  lemma QuotedText(q: string, p: nat, ctx: Ctx, e: nat)
    requires p < |q| && !Escaped(q, p) && Quotes(ctx) && q[p] == Delimiter(ctx)
    requires e == p + 1 + QuoteEnd(q[p + 1..], Delimiter(ctx))
    ensures Covers(q, p, e, ctx, if QuoteCloses(q[p + 1..], Delimiter(ctx)) then Raw else ctx)
  {
    QuoteOpens(q, p, ctx);
    QuoteDwells(q, p + 1, ctx, Delimiter(ctx));
    Region(q, p, p + 1, ctx, e, if QuoteCloses(q[p + 1..], Delimiter(ctx)) then Raw else ctx);
  }

  lemma QuoteOpens(q: string, p: nat, ctx: Ctx)
    requires p < |q| && !Escaped(q, p) && Quotes(ctx) && q[p] == Delimiter(ctx)
    ensures Step(q, p, Raw) == Lexed(ctx, p + 1) && !Escaped(q, p + 1)
  {
  }

  // ---------------------------------------------------------------- block comments

  /** The context in which `depth` comments are open. */
  function Blocks(depth: nat): Ctx {
    if depth == 0 then Raw else Block(depth)
  }

  lemma BlockStepIs(q: string, i: nat, depth: nat)
    requires i < |q| && depth > 0
    ensures depth + FrontDepth(q[i..]) >= 0
    ensures Step(q, i, Block(depth)) == Lexed(Blocks(depth + FrontDepth(q[i..])), i + FrontLen(q[i..]))
  {
    assert q[i..][0] == q[i] && (i + 1 < |q| ==> q[i..][1] == q[i + 1]);
  }

  /** The front of the text from `i` on, and the depth behind it. */
  lemma DepthFrom(q: string, i: nat, j: nat)
    requires i < |q| && i + FrontLen(q[i..]) <= j <= |q|
    ensures Depth(q[i..j]) == Depth(q[i + FrontLen(q[i..])..j]) + FrontDepth(q[i..])
  {
    var t, k := q[i..], FrontLen(q[i..]);
    DepthFront(t, j - i);
    assert t[..j - i] == q[i..j] && t[k..][..j - i - k] == q[i + k..j];
  }

  lemma BlockEndFrom(q: string, i: nat, depth: nat)
    requires i < |q| && depth > 0
    ensures var k, d := FrontLen(q[i..]), depth + FrontDepth(q[i..]);
      i + k <= |q| && d >= 0 && BlockEnd(q[i..], depth) == k + BlockEnd(q[i + k..], d) && BlockEnd(q[i + k..], 0) == 0
  {
    assert q[i..][FrontLen(q[i..])..] == q[i + FrontLen(q[i..])..];
  }

  lemma BlockFrom(q: string, i: nat, depth: nat, s: Lexed, j: nat, ctx: Ctx)
    requires i < |q| && depth > 0 && Step(q, i, Block(depth)) == s && i < j && Reaches(q, i, Blocks(depth), j, ctx)
    ensures s.next <= j && Reaches(q, s.next, s.ctx, j, ctx)
  {
  }

  /** In a block comment the depth is opens minus closes; that is so up to where it ends. */
  lemma {:induction false} BlockDepth(q: string, i: nat, depth: nat, j: nat, ctx: Ctx, e: nat)
    requires i <= j <= e <= |q| && e == i + BlockEnd(q[i..], depth) && Reaches(q, i, Blocks(depth), j, ctx)
    ensures InDepth(q, i, depth, j, ctx)
    decreases |q| - i
  {
    if i == j {
      assert q[i..j] == "";
    } else {
      var k, d := FrontLen(q[i..]), depth + FrontDepth(q[i..]);
      BlockStepIs(q, i, depth);
      BlockFrom(q, i, depth, Lexed(Blocks(d), i + k), j, ctx);
      BlockEndFrom(q, i, depth);
      BlockDepth(q, i + k, d, j, ctx, e);
      DepthFrom(q, i, j);
    }
  }

  ghost predicate InDepth(q: string, i: nat, depth: nat, j: nat, ctx: Ctx)
    requires i <= j <= |q|
  {
    depth + Depth(q[i..j]) >= 0 && ctx == Blocks(depth + Depth(q[i..j]))
  }

  lemma BlockOn(q: string, i: nat, depth: nat, s: Lexed, j: nat, ctx: Ctx)
    requires i < |q| && depth > 0 && Step(q, i, Block(depth)) == s && s.next <= j && Reaches(q, s.next, s.ctx, j, ctx)
    ensures Reaches(q, i, Blocks(depth), j, ctx)
  {
  }

  /** The end is a token start. */
  lemma {:induction false} BlockReaches(q: string, i: nat, depth: nat, e: nat, d: nat)
    requires i <= |q| && e == i + BlockEnd(q[i..], depth) && d == depth + Depth(q[i..e])
    ensures Reaches(q, i, Blocks(depth), e, Blocks(d))
    decreases |q| - i
  {
    if i == |q| || depth == 0 {
      assert q[i..e] == "";
    } else {
      var k, inner := FrontLen(q[i..]), depth + FrontDepth(q[i..]);
      BlockStepIs(q, i, depth);
      BlockEndFrom(q, i, depth);
      DepthFrom(q, i, e);
      BlockReaches(q, i + k, inner, e, d);
      BlockOn(q, i, depth, Lexed(Blocks(inner), i + k), e, Blocks(d));
    }
  }

  lemma BlockOpens(q: string, p: nat)
    requires p < |q| && !Escaped(q, p) && Starts(q[p..], "/*")
    ensures p + 2 <= |q| && Step(q, p, Raw) == Lexed(Block(1), p + 2)
  {
    assert q[p..][0] == q[p] && q[p..][1] == q[p + 1];
  }

  /** Where a comment's text is: opens minus closes, never balanced before the end. */
  lemma BlockEndFirstFrom(q: string, i: nat, j: nat)
    requires i <= j <= |q| && j <= i + BlockEnd(q[i..], 1)
    ensures var e := i + BlockEnd(q[i..], 1); var d := 1 + Depth(q[i..j]);
      d >= 0 && (j < e ==> d > 0) && (j == e < |q| ==> d == 0)
  {
    BlockEndFirst(q[i..], 1, j - i);
    assert q[i..][..j - i] == q[i..j];
  }

  lemma BlockInside(q: string, p: nat, e: nat, j: nat, c: Ctx)
    requires p + 2 <= |q| && Step(q, p, Raw) == Lexed(Block(1), p + 2) && e == p + 2 + BlockEnd(q[p + 2..], 1)
    requires p + 2 <= j < e && Reaches(q, p, Raw, j, c)
    ensures Depth(q[p + 2..j]) >= 0 && c == Block(1 + Depth(q[p + 2..j]))
  {
    BlockDepth(q, p + 2, 1, j, c, e);
    BlockEndFirstFrom(q, p + 2, j);
  }

  /** A block comment: at every token the context is as many comments as the text has opened and not closed,
      and raw text comes back exactly where the last one is closed. */
  lemma BlockComment(q: string, p: nat, e: nat)
    requires p < |q| && !Escaped(q, p) && Starts(q[p..], "/*") && e == p + 2 + BlockEnd(q[p + 2..], 1)
    ensures e <= |q| && 1 + Depth(q[p + 2..e]) >= 0 && Reaches(q, p, Raw, e, Blocks(1 + Depth(q[p + 2..e])))
    ensures e < |q| ==> Depth(q[p + 2..e]) == -1
    ensures forall j, c | p + 2 <= j < e && Reaches(q, p, Raw, j, c) ::
      Depth(q[p + 2..j]) >= 0 && c == Block(1 + Depth(q[p + 2..j]))
  {
    BlockOpens(q, p);
    BlockEndFirstFrom(q, p + 2, e);
    BlockReaches(q, p + 2, 1, e, 1 + Depth(q[p + 2..e]));
    forall j, c | p + 2 <= j < e && Reaches(q, p, Raw, j, c)
      ensures Depth(q[p + 2..j]) >= 0 && c == Block(1 + Depth(q[p + 2..j]))
    {
      BlockInside(q, p, e, j, c);
    }
  }

  // ---------------------------------------------------------------- raw text

  /** Bytes that open a region on their own. */
  predicate Opens(c: char) {
    c == '`' || c == '\'' || c == '"' || c == '#'
  }

  /** Everything else is raw text, and so is a byte behind a backslash. */
  lemma RawByte(q: string, p: nat)
    requires p < |q|
    requires Escaped(q, p) || (!Opens(q[p]) && !Starts(q[p..], "--") && !Starts(q[p..], "/*"))
    ensures Reaches(q, p, Raw, p + 1, Raw)
  {
    assert q[p..][0] == q[p] && (p + 1 < |q| ==> q[p..][1] == q[p + 1]);
    assert Step(q, p, Raw) == Lexed(Raw, p + 1);
    assert Reaches(q, p + 1, Raw, p + 1, Raw);
  }

  // ---------------------------------------------------------------- text that is copied as it is

  /** Lexing from `i` in `ctx` keeps out of raw text up to `e`, where raw text comes back or the query ends. */
  ghost predicate Protected(q: string, i: nat, ctx: Ctx, e: nat)
    requires i <= |q|
    decreases |q| - i
  {
    if i >= e then i == e && (ctx == Raw || e == |q|)
    else i < |q| && ctx != Raw && Protected(q, Step(q, i, ctx).next, Step(q, i, ctx).ctx, e)
  }

  lemma {:induction false} DwellsProtected(q: string, i: nat, ctx: Ctx, e: nat, end: Ctx)
    requires i <= |q| && Dwells(q, i, ctx, e, end) && ctx != Raw && (end == Raw || e == |q|)
    ensures Protected(q, i, ctx, e)
    decreases |q| - i
  {
    if i < e {
      var s := Step(q, i, ctx);
      if s.ctx == ctx && Dwells(q, s.next, ctx, e, end) { DwellsProtected(q, s.next, ctx, e, end); }
    }
  }

  lemma {:induction false} BlockProtected(q: string, i: nat, depth: nat, e: nat)
    requires i <= |q| && e == i + BlockEnd(q[i..], depth)
    ensures Protected(q, i, Blocks(depth), e)
    decreases |q| - i
  {
    if i < |q| && depth > 0 {
      BlockStepIs(q, i, depth);
      BlockEndFrom(q, i, depth);
      BlockProtected(q, i + FrontLen(q[i..]), depth + FrontDepth(q[i..]), e);
    }
  }

  /** How long the comment or quoted text is that begins a raw text, or 0 if none does. */
  function RegionLen(s: string): (n: nat)
    ensures n <= |s|
  {
    if Starts(s, "#") then 1 + LineEnd(s[1..])
    else if Starts(s, "--") then 2 + LineEnd(s[2..])
    else if Starts(s, "/*") then 2 + BlockEnd(s[2..], 1)
    else if s != "" && (s[0] == '`' || s[0] == '\'' || s[0] == '"') then 1 + QuoteEnd(s[1..], s[0])
    else 0
  }

  /** The lexer enters a region with its opening and keeps in it. */
  lemma RegionProtected(q: string, p: nat, e: nat)
    requires p < |q| && !Escaped(q, p) && e == p + RegionLen(q[p..]) && e > p
    ensures var s := Step(q, p, Raw);
      s.ctx != Raw && (s.ctx == Single <==> q[p] == '\'') && Protected(q, s.next, s.ctx, e)
  {
    assert q[p..][0] == q[p] && (p + 1 < |q| ==> q[p..][1] == q[p + 1]) && q[p..][1..] == q[p + 1..];
    if p + 1 < |q| { assert q[p..][2..] == q[p + 2..]; }
    if q[p] == '#' || Starts(q[p..], "--") {
      LineProtected(q, p, e);
    } else if Starts(q[p..], "/*") {
      BlockOpens(q, p);
      BlockProtected(q, p + 2, 1, e);
    } else {
      QuoteProtected(q, p, if q[p] == '`' then Backtick else if q[p] == '"' then Double else Single, e);
    }
  }

  lemma LineProtected(q: string, p: nat, e: nat)
    requires p < |q| && !Escaped(q, p) && (q[p] == '#' || Starts(q[p..], "--"))
    requires e == LineStart(q, p) + LineEnd(q[LineStart(q, p)..])
    ensures Step(q, p, Raw) == Lexed(Line, LineStart(q, p)) && Protected(q, LineStart(q, p), Line, e)
  {
    var b := LineStart(q, p);
    LineOpens(q, p);
    LineDwells(q, b, e, LineAfter(q[b..]));
    DwellsProtected(q, b, Line, e, LineAfter(q[b..]));
  }

  lemma {:induction false} QuoteEndOpen(s: string, d: char)
    ensures !QuoteCloses(s, d) ==> QuoteEnd(s, d) == |s|
  {
    if s != "" && !Shuts(s, d) { QuoteEndOpen(s[QuoteFront(s, d)..], d); }
  }

  lemma QuoteProtected(q: string, p: nat, ctx: Ctx, e: nat)
    requires p < |q| && !Escaped(q, p) && Quotes(ctx) && q[p] == Delimiter(ctx)
    requires e == p + 1 + QuoteEnd(q[p + 1..], Delimiter(ctx))
    ensures Step(q, p, Raw) == Lexed(ctx, p + 1) && Protected(q, p + 1, ctx, e)
  {
    var d := Delimiter(ctx);
    QuoteOpens(q, p, ctx);
    QuoteDwells(q, p + 1, ctx, d);
    QuoteEndOpen(q[p + 1..], d);
    DwellsProtected(q, p + 1, ctx, e, if QuoteCloses(q[p + 1..], d) then Raw else ctx);
  }

  /** Behind a region nothing is escaped. */
  lemma RegionEven(q: string, p: nat, e: nat)
    requires p < |q| && !Escaped(q, p) && e == p + RegionLen(q[p..]) && p < e < |q|
    ensures !Escaped(q, e)
  {
    RegionLast(q[p..]);
    assert q[p..][e - p - 1] == q[e - 1];
    assert Run(q, e) == 0;
  }

  lemma {:induction false} QuoteLast(s: string, d: char)
    ensures var n := QuoteEnd(s, d); n < |s| ==> n > 0 && s[n - 1] == d
  {
    if s != "" && !Shuts(s, d) { QuoteLast(s[QuoteFront(s, d)..], d); }
  }

  lemma {:induction false} BlockLast(s: string, depth: nat)
    ensures var n := BlockEnd(s, depth); n < |s| && depth > 0 ==> n > 0 && s[n - 1] == '/'
  {
    if s != "" && depth > 0 { BlockLast(s[FrontLen(s)..], depth + FrontDepth(s)); }
  }

  lemma RegionLast(s: string)
    requires 0 < RegionLen(s) < |s|
    ensures s[RegionLen(s) - 1] != '\\'
  {
    if Starts(s, "/*") { BlockLast(s[2..], 1); }
    else if s[0] == '`' || s[0] == '\'' || s[0] == '"' { QuoteLast(s[1..], s[0]); }
  }
}
