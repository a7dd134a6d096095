/** String literals and the lexer (bind.go): a quoted string stays one literal, so binding strings
    does not disturb the query around the markers. */
module Quoting {
  import opened Base
  import opened Lexer
  import opened Bind

  // ---------------------------------------------------------------- quoting

  function EscapeChar(c: char): string {
    if c == '\\' then ['\\', '\\'] else if c == '\'' then ['\\', '\''] else [c]
  }

  function EscapeText(v: string): string {
    if v == "" then "" else EscapeChar(v[0]) + EscapeText(v[1..])
  }

  function Quote(v: string): (r: string)
    ensures |r| >= 2 && r[0] == '\'' && r[|r| - 1] == '\''
  {
    "'" + EscapeText(v) + "'"
  }

  predicate Plain(c: char) {
    c != '\\' && c != '\''
  }

  /** In the literal of a string a byte other than a quote or a backslash stands for itself, and every quote
      between the outer two has a backslash before it. */
  lemma {:induction false} EscapeTextIs(v: string)
    ensures (forall k | 0 <= k < |v| :: Plain(v[k])) ==> EscapeText(v) == v
    ensures forall k | 0 <= k < |EscapeText(v)| && EscapeText(v)[k] == '\'' :: k > 0 && EscapeText(v)[k - 1] == '\\'
  {
    if v != "" {
      EscapeTextIs(v[1..]);
      var e, rest := EscapeChar(v[0]), EscapeText(v[1..]);
      assert v == [v[0]] + v[1..];
      forall k | 0 <= k < |e + rest| && (e + rest)[k] == '\'' ensures k > 0 && (e + rest)[k - 1] == '\\' {
        if k >= |e| { assert rest[k - |e|] == '\''; }
      }
    }
  }

  /** What a literal's inside stands for: a backslash makes the next byte stand for itself. */
  function Unescape(s: string): string {
    if |s| >= 2 && s[0] == '\\' then [s[1]] + Unescape(s[2..])
    else if s == "" then ""
    else [s[0]] + Unescape(s[1..])
  }

  lemma {:induction false} UnescapeEscaped(v: string)
    ensures Unescape(EscapeText(v)) == v
  {
    if v != "" {
      UnescapeEscaped(v[1..]);
      var e, rest := EscapeChar(v[0]), EscapeText(v[1..]);
      assert (e + rest)[|e|..] == rest;
      assert v == [v[0]] + v[1..];
    }
  }

  /** The literal of a string, without its quotes, stands for the string. */
  lemma QuoteRoundTrip(v: string)
    ensures var r := Quote(v); Unescape(r[1..|r| - 1]) == v
  {
    assert Quote(v)[1..|Quote(v)| - 1] == EscapeText(v);
    UnescapeEscaped(v);
  }

  // ---------------------------------------------------------------- lexing a literal

  /** Lexing from `i` inside single quotes stays inside up to a token start at `j`. */
  ghost predicate Inside(q: string, i: nat, j: nat)
    requires i <= |q|
    decreases |q| - i
  {
    i == j || (i < j && i < |q| && Step(q, i, Single).ctx == Single && Inside(q, Step(q, i, Single).next, j))
  }

  lemma {:induction false} InsideReaches(q: string, from: nat, ctx: Ctx, i: nat, j: nat)
    requires from <= |q| && i <= |q| && Reaches(q, from, ctx, i, Single) && Inside(q, i, j)
    ensures Reaches(q, from, ctx, j, Single)
    decreases |q| - i
  {
    if i < j {
      ReachesStep(q, from, ctx, i, Single);
      InsideReaches(q, from, ctx, Step(q, i, Single).next, j);
    }
  }

  /** `part` stands in `q` at `p`. */
  ghost predicate Stands(q: string, p: nat, part: string) {
    p + |part| <= |q| && q[p..p + |part|] == part
  }

  lemma StandsSplit(q: string, p: nat, a: string, b: string)
    requires Stands(q, p, a + b)
    ensures Stands(q, p, a) && Stands(q, p + |a|, b)
  {
    var w := q[p..p + |a + b|];
    assert q[p..p + |a|] == w[..|a|] && q[p + |a|..p + |a| + |b|] == w[|a|..];
  }

  lemma StandsAt(q: string, p: nat, part: string, k: nat)
    requires Stands(q, p, part) && k < |part|
    ensures q[p + k] == part[k]
  {
  }

  /** One byte of the string leaves no loose backslash, */
  lemma CharEven(q: string, p: nat, c: char)
    requires Stands(q, p, EscapeChar(c)) && !Escaped(q, p)
    ensures p + |EscapeChar(c)| <= |q| && !Escaped(q, p + |EscapeChar(c)|)
  {
    StandsAt(q, p, EscapeChar(c), 0);
    if c == '\\' || c == '\'' {
      StandsAt(q, p, EscapeChar(c), 1);
      assert Run(q, p + 1) == Run(q, p) + 1;
    }
  }

  /** and the lexer stays inside. */
  lemma CharInside(q: string, p: nat, c: char, j: nat)
    requires Stands(q, p, EscapeChar(c)) && !Escaped(q, p)
    requires p + |EscapeChar(c)| <= j && Inside(q, p + |EscapeChar(c)|, j)
    ensures Inside(q, p, j)
  {
  }

  lemma TextStands(q: string, p: nat, v: string, c: string, rest: string)
    requires Stands(q, p, EscapeText(v)) && v != "" && c == EscapeChar(v[0]) && rest == EscapeText(v[1..])
    ensures |EscapeText(v)| == |c| + |rest| && Stands(q, p, c) && Stands(q, p + |c|, rest)
  {
    assert EscapeText(v) == c + rest;
    StandsSplit(q, p, c, rest);
  }

  lemma {:induction false} TextInside(q: string, p: nat, v: string, e: nat)
    requires Stands(q, p, EscapeText(v)) && !Escaped(q, p) && e == p + |EscapeText(v)|
    ensures e <= |q| && Inside(q, p, e) && !Escaped(q, e)
    decreases |v|
  {
    if v != "" {
      var c, rest := EscapeChar(v[0]), EscapeText(v[1..]);
      TextStands(q, p, v, c, rest);
      CharEven(q, p, v[0]);
      TextInside(q, p + |c|, v[1..], e);
      CharInside(q, p, v[0], e);
    }
  }

  /** From its first byte on, a literal is lexed as one: inside up to the closing quote, which is
      not escaped. */
  lemma LiteralInside(q: string, p: nat, v: string)
    requires Stands(q, p, Quote(v))
    ensures var e := p + |Quote(v)| - 1; p < e < |q| && Inside(q, p + 1, e) && q[e] == '\'' && !Escaped(q, e)
  {
    QuoteStands(q, p, v);
    TextInside(q, p + 1, v, p + 1 + |EscapeText(v)|);
  }

  lemma QuoteStands(q: string, p: nat, v: string)
    requires Stands(q, p, Quote(v))
    ensures |Quote(v)| == |EscapeText(v)| + 2 && p + |Quote(v)| <= |q|
    ensures q[p] == '\'' && !Escaped(q, p + 1) && Stands(q, p + 1, EscapeText(v)) && q[p + 1 + |EscapeText(v)|] == '\''
  {
    var text := EscapeText(v);
    StandsSplit(q, p, "'" + text, "'");
    StandsSplit(q, p, "'", text);
    StandsAt(q, p, "'", 0);
    StandsAt(q, p + 1 + |text|, "'", 0);
  }

  /** A literal alone, in raw text: opened by its first byte, closed by its last, inside in between. */
  lemma LiteralAlone(v: string)
    ensures var q := Quote(v); var e := |q| - 1;
      Step(q, 0, Raw) == Lexed(Single, 1) && Inside(q, 1, e) && Step(q, e, Single) == Lexed(Raw, |q|)
  {
    LiteralInside(Quote(v), 0, v);
  }

  // ---------------------------------------------------------------- the text around the markers

  /** How far the rewriting has come: the token start, its context, the markers so far, what was written,
      and whether the last token was a marker or the closing quote of a literal. */
  datatype Place = Place(i: nat, ctx: Ctx, k: nat, out: string, after: bool)

  function Next(q: string, lits: seq<string>, w: Place): Place {
    if w.i >= |q| then w
    else if EscapedMark(q, w.i, w.ctx) then Place(w.i + 2, w.ctx, w.k, w.out + "?", false)
    else if Mark(q, w.i, w.ctx) then Place(w.i + 1, w.ctx, w.k + 1, w.out + Literal(lits, w.k), true)
    else
      var s := Step(q, w.i, w.ctx);
      Place(s.next, s.ctx, w.k, w.out + q[w.i..s.next], Closes(w.ctx, s.ctx))
  }

  predicate Closes(ctx: Ctx, ctx': Ctx) {
    ctx == Single && ctx' == Raw
  }

  function Walk(q: string, lits: seq<string>, n: nat): Place {
    if n == 0 then Place(0, Raw, 0, "", false) else Next(q, lits, Walk(q, lits, n - 1))
  }

  function Rest(q: string, lits: seq<string>, w: Place): string {
    Positional(q, Steps(q), w.i, w.ctx, lits, w.k)
  }

  /** What was written and the rewriting of the rest make up the bound query. */
  lemma NextRewrites(q: string, lits: seq<string>, w: Place)
    requires w.i <= |q|
    ensures var w' := Next(q, lits, w); w'.i <= |q| && w'.out + Rest(q, lits, w') == w.out + Rest(q, lits, w)
  {
    if w.i < |q| {
      assert Steps(q)(w.i, w.ctx) == Step(q, w.i, w.ctx);
      var w' := Next(q, lits, w);
      assert Rest(q, lits, w) == w'.out[|w.out|..] + Rest(q, lits, w');
    }
  }

  lemma {:induction false} WalkRewrites(q: string, lits: seq<string>, n: nat)
    ensures var w := Walk(q, lits, n);
      w.i <= |q| && w.out + Rest(q, lits, w) == Positional(q, Steps(q), 0, Raw, lits, 0)
  {
    if n > 0 {
      WalkRewrites(q, lits, n - 1);
      NextRewrites(q, lits, Walk(q, lits, n - 1));
    }
  }

  /** No marker stands directly before a single quote. */
  predicate Clear(q: string, i: nat, ctx: Ctx)
    requires i <= |q|
    decreases |q| - i
  {
    i == |q| ||
    if EscapedMark(q, i, ctx) then Clear(q, i + 2, ctx)
    else if Mark(q, i, ctx) then (i + 1 < |q| ==> q[i + 1] != '\'') && Clear(q, i + 1, ctx)
    else Clear(q, Step(q, i, ctx).next, Step(q, i, ctx).ctx)
  }

  /** Nor directly behind another marker or the closing quote of a literal. */
  predicate Alone(q: string, i: nat, ctx: Ctx, after: bool)
    requires i <= |q|
    decreases |q| - i
  {
    i == |q| ||
    if EscapedMark(q, i, ctx) then Alone(q, i + 2, ctx, false)
    else if Mark(q, i, ctx) then !after && (i + 1 < |q| ==> q[i + 1] != '\'') && Alone(q, i + 1, ctx, true)
    else Alone(q, Step(q, i, ctx).next, Step(q, i, ctx).ctx, Closes(ctx, Step(q, i, ctx).ctx))
  }

  lemma {:induction false} AloneClear(q: string, i: nat, ctx: Ctx, after: bool)
    requires i <= |q|
    ensures Alone(q, i, ctx, after) ==> Clear(q, i, ctx)
    decreases |q| - i
  {
    if i < |q| {
      if EscapedMark(q, i, ctx) { AloneClear(q, i + 2, ctx, false); }
      else if Mark(q, i, ctx) { AloneClear(q, i + 1, ctx, true); }
      else { AloneClear(q, Step(q, i, ctx).next, Step(q, i, ctx).ctx, Closes(ctx, Step(q, i, ctx).ctx)); }
    }
  }

  function Quotes(vs: seq<string>): (lits: seq<string>)
    ensures |lits| == |vs|
  {
    seq(|vs|, k requires 0 <= k < |vs| => Quote(vs[k]))
  }

  /** What comes next in the bound query at a token start. */
  ghost predicate Starts(q: string, vs: seq<string>, w: Place, r: string)
    requires w.i < |q|
  {
    r != "" &&
    if EscapedMark(q, w.i, w.ctx) then r[0] == '?'
    else if Mark(q, w.i, w.ctx) then r[0] == '\'' && w.k < |vs| && Stands(r, 0, Quote(vs[w.k]))
    else r[0] == q[w.i] && (Step(q, w.i, w.ctx).next == w.i + 2 ==> |r| >= 2 && r[1] == q[w.i + 1])
  }

  /** The bound query from a token start on. */
  ghost predicate Follows(q: string, vs: seq<string>, full: string, w: Place, rest: string) {
    w.i <= |q| && full == w.out + rest && if w.i == |q| then rest == "" else Starts(q, vs, w, rest)
  }

  /** There are arguments for the markers to come. */
  ghost predicate Enough(q: string, vs: seq<string>, w: Place) {
    w.i <= |q| && w.k + Marks(q, Steps(q), w.i, w.ctx) <= |vs|
  }

  lemma RestStarts(q: string, vs: seq<string>, w: Place)
    requires w.i < |q| && Enough(q, vs, w)
    ensures Starts(q, vs, w, Rest(q, Quotes(vs), w))
  {
  }

  lemma NextEnough(q: string, vs: seq<string>, w: Place)
    requires Enough(q, vs, w) && w.i < |q|
    ensures Enough(q, vs, Next(q, Quotes(vs), w))
  {
    assert Steps(q)(w.i, w.ctx) == Step(q, w.i, w.ctx);
  }

  /** The lexer over the bound query stands before the closing quote of a literal. */
  ghost predicate Pending(full: string, w: Place) {
    && w.ctx == Raw && 0 < |w.out| <= |full| && full[|w.out| - 1] == '\'' && !Escaped(full, |w.out| - 1)
    && Reaches(full, 0, Raw, |w.out| - 1, Single)
  }

  /** The lexer over the bound query agrees with the lexer over the query at a token start, or, behind a
      literal, at its closing quote. */
  ghost predicate Around(q: string, full: string, w: Place) {
    && w.i <= |q| && |w.out| <= |full| && !Mid(q, w.i, w.ctx) && Run(full, |w.out|) == Run(q, w.i)
    && if w.after then Pending(full, w) else Reaches(full, 0, Raw, |w.out|, w.ctx)
  }

  /** The literal is closed unless a quote follows at once, */
  lemma Settle(full: string, w: Place)
    requires Pending(full, w) && (|w.out| < |full| ==> full[|w.out|] != '\'')
    ensures Reaches(full, 0, Raw, |w.out|, w.ctx)
  {
    var e := |w.out| - 1;
    assert Step(full, e, Single) == Lexed(Raw, e + 1);
    ReachesStep(full, 0, Raw, e, Single);
  }

  lemma {:induction false} Skips(q: string, i: nat, ctx: Ctx, j: nat, c: Ctx, c': Ctx)
    requires i <= |q| && Reaches(q, i, ctx, j, c) && j < |q| && Step(q, j, c).next == j + 2
    ensures !Reaches(q, i, ctx, j + 1, c')
    decreases |q| - i
  {
    if i != j || ctx != c { Skips(q, Step(q, i, ctx).next, Step(q, i, ctx).ctx, j, c, c'); }
  }

  /** and then the lexer never stops between the two. */
  lemma Joins(full: string, w: Place)
    requires Pending(full, w) && |w.out| < |full| && full[|w.out|] == '\''
    ensures !Reaches(full, 0, Raw, |w.out|, w.ctx)
  {
    var e := |w.out| - 1;
    assert Step(full, e, Single) == Lexed(Single, e + 2);
    Skips(full, 0, Raw, e, Single, w.ctx);
  }

  /** A quote or a marker stands directly behind a literal. */
  predicate Touches(q: string, w: Place) {
    w.after && w.i < |q| && (q[w.i] == '\'' || Mark(q, w.i, w.ctx))
  }

  /** The first byte of the rest stands in the bound query. */
  lemma FullAt(full: string, out: string, rest: string)
    requires full == out + rest
    ensures |out| <= |full| && (rest == "" ==> |full| == |out|)
    ensures rest != "" ==> |out| < |full| && full[|out|] == rest[0]
    ensures |rest| >= 2 ==> |out| + 1 < |full| && full[|out| + 1] == rest[1]
  {
  }

  lemma ReachedIff(q: string, vs: seq<string>, full: string, w: Place, rest: string)
    requires Around(q, full, w) && Follows(q, vs, full, w, rest)
    ensures Reaches(full, 0, Raw, |w.out|, w.ctx) <==> !Touches(q, w)
  {
    FullAt(full, w.out, rest);
    if w.after {
      if Touches(q, w) { Joins(full, w); } else { Settle(full, w); }
    }
  }

  /** What may follow a token of one byte in the bound query: what followed it, or what replaces a marker. */
  ghost predicate Looks(q: string, i: nat, full: string, p: nat)
    requires i < |q|
  {
    p + 1 < |full| ==> full[p + 1] == '?' || full[p + 1] == '\'' || (i + 1 < |q| && full[p + 1] == q[i + 1])
  }

  lemma LooksOn(q: string, vs: seq<string>, full: string, w: Place, rest: string)
    requires w.i > 0 && Follows(q, vs, full, w, rest) && w.out != ""
    ensures Looks(q, w.i - 1, full, |w.out| - 1)
  {
  }

  lemma NextStarts(q: string, vs: seq<string>, full: string, w: Place)
    requires w.i < |q| && Enough(q, vs, w) && full == w.out + Rest(q, Quotes(vs), w)
    ensures Follows(q, vs, full, Next(q, Quotes(vs), w), Rest(q, Quotes(vs), Next(q, Quotes(vs), w)))
  {
    var w' := Next(q, Quotes(vs), w);
    NextRewrites(q, Quotes(vs), w);
    NextEnough(q, vs, w);
    if w'.i < |q| { RestStarts(q, vs, w'); }
  }

  /** Only the closing quote of a literal is lexed by what follows it. */
  lemma SameStep(q: string, i: nat, full: string, p: nat, ctx: Ctx)
    requires i < |q| && p < |full| && full[p] == q[i] && Run(full, p) == Run(q, i)
    requires Step(q, i, ctx).next == i + 2 ==> p + 1 < |full| && full[p + 1] == q[i + 1]
    requires Step(q, i, ctx).next == i + 1 ==> Looks(q, i, full, p)
    requires !Closes(ctx, Step(q, i, ctx).ctx)
    ensures Step(full, p, ctx) == Lexed(Step(q, i, ctx).ctx, p + Step(q, i, ctx).next - i)
  {
  }

  /** The same token in both texts leaves the same backslashes behind it. */
  lemma TokenDone(q: string, full: string, i: nat, p: nat, ctx: Ctx)
    requires i < |q| && p < |full| && full[p] == q[i] && Run(full, p) == Run(q, i) && !EscapedMark(q, i, ctx)
    requires Step(q, i, ctx).next == i + 2 ==> p + 1 < |full| && full[p + 1] == q[i + 1]
    ensures var s := Step(q, i, ctx);
      p + s.next - i <= |full| && Run(full, p + s.next - i) == Run(q, s.next) && !Mid(q, s.next, s.ctx)
  {
  }

  /** An ordinary token, with what the bound query has at it and behind it. */
  lemma AroundToken(q: string, vs: seq<string>, full: string, w: Place, rest: string, w': Place, rest': string)
    requires w.i < |q| && !EscapedMark(q, w.i, w.ctx) && !Mark(q, w.i, w.ctx) && !Touches(q, w)
    requires Around(q, full, w) && Follows(q, vs, full, w, rest)
    requires w' == Next(q, Quotes(vs), w) && Follows(q, vs, full, w', rest')
    ensures Around(q, full, w')
  {
    FullAt(full, w.out, rest);
    ReachedIff(q, vs, full, w, rest);
    TokenDone(q, full, w.i, |w.out|, w.ctx);
    if !w'.after {
      if w'.i == w.i + 1 { LooksOn(q, vs, full, w', rest'); }
      SameStep(q, w.i, full, |w.out|, w.ctx);
      ReachesStep(full, 0, Raw, |w.out|, w.ctx);
    }
  }

  lemma AroundEscaped(q: string, vs: seq<string>, full: string, w: Place, rest: string)
    requires w.i < |q| && EscapedMark(q, w.i, w.ctx) && Around(q, full, w) && Follows(q, vs, full, w, rest)
    ensures Around(q, full, Place(w.i + 2, w.ctx, w.k, w.out + "?", false))
  {
    FullAt(full, w.out, rest);
    ReachedIff(q, vs, full, w, rest);
    PlainStep(full, |w.out|, w.ctx);
    ReachesStep(full, 0, Raw, |w.out|, w.ctx);
  }

  lemma StandsIn(full: string, out: string, rest: string, part: string)
    requires full == out + rest && Stands(rest, 0, part)
    ensures Stands(full, |out|, part)
  {
  }

  /** A marker: its literal opens, or continues the one before it, and runs to its closing quote. */
  lemma MarkLiteral(q: string, full: string, w: Place, v: string)
    requires w.i < |q| && Mark(q, w.i, w.ctx) && Around(q, full, w) && Stands(full, |w.out|, Quote(v))
    ensures Around(q, full, Place(w.i + 1, Raw, w.k + 1, w.out + Quote(v), true))
  {
    var p := |w.out|;
    LiteralInside(full, p, v);
    StandsAt(full, p, Quote(v), 0);
    MarkOpens(q, full, w);
    InsideReaches(full, 0, Raw, p + 1, p + |Quote(v)| - 1);
  }

  lemma MarkOpens(q: string, full: string, w: Place)
    requires w.i < |q| && Mark(q, w.i, w.ctx) && Around(q, full, w) && |w.out| < |full| && full[|w.out|] == '\''
    ensures |w.out| + 1 <= |full| && Reaches(full, 0, Raw, |w.out| + 1, Single)
  {
    var p := |w.out|;
    if w.after {
      assert Step(full, p - 1, Single) == Lexed(Single, p + 1);
      ReachesStep(full, 0, Raw, p - 1, Single);
    } else {
      assert Run(q, w.i) == 0;
      assert Step(full, p, Raw) == Lexed(Single, p + 1);
      ReachesStep(full, 0, Raw, p, Raw);
    }
  }

  lemma AroundNext(q: string, vs: seq<string>, full: string, w: Place, rest: string, w': Place, rest': string)
    requires w.i < |q| && Around(q, full, w) && Follows(q, vs, full, w, rest) && (w.after ==> q[w.i] != '\'')
    requires w' == Next(q, Quotes(vs), w) && Follows(q, vs, full, w', rest')
    ensures Around(q, full, w')
  {
    if EscapedMark(q, w.i, w.ctx) {
      AroundEscaped(q, vs, full, w, rest);
    } else if Mark(q, w.i, w.ctx) {
      StandsIn(full, w.out, rest, Quote(vs[w.k]));
      MarkLiteral(q, full, w, vs[w.k]);
    } else {
      AroundToken(q, vs, full, w, rest, w', rest');
    }
  }

  // ---------------------------------------------------------------- which contexts are kept

  /** The walk has come to `w`, and no quote touches a literal there. */
  ghost predicate Fits(q: string, vs: seq<string>, full: string, w: Place) {
    && Around(q, full, w) && Enough(q, vs, w) && full == w.out + Rest(q, Quotes(vs), w)
    && (w.after && w.i < |q| ==> q[w.i] != '\'')
  }

  /** The same without the last clause. */
  ghost predicate Comes(q: string, vs: seq<string>, full: string, w: Place) {
    Around(q, full, w) && Enough(q, vs, w) && full == w.out + Rest(q, Quotes(vs), w)
  }

  lemma FitsNext(q: string, vs: seq<string>, full: string, w: Place)
    requires w.i < |q| && Fits(q, vs, full, w)
    ensures var w' := Next(q, Quotes(vs), w);
      Comes(q, vs, full, w') && (Fits(q, vs, full, w') <==> !Bad(q, w))
  {
    var w' := Next(q, Quotes(vs), w);
    RestStarts(q, vs, w);
    NextStarts(q, vs, full, w);
    AroundNext(q, vs, full, w, Rest(q, Quotes(vs), w), w', Rest(q, Quotes(vs), w'));
    NextEnough(q, vs, w);
    if !Mark(q, w.i, w.ctx) { NotDoubled(q, Quotes(vs), w); }
  }

  /** A closing quote is not followed by a quote. */
  lemma NotDoubled(q: string, lits: seq<string>, w: Place)
    requires w.i < |q| && !Mark(q, w.i, w.ctx)
    ensures var w' := Next(q, lits, w); w'.after && w'.i < |q| ==> q[w'.i] != '\''
  {
  }

  lemma ComesReached(q: string, vs: seq<string>, full: string, w: Place)
    requires Comes(q, vs, full, w)
    ensures Reaches(full, 0, Raw, |w.out|, w.ctx) <==> !Touches(q, w)
  {
    if w.i < |q| { RestStarts(q, vs, w); }
    ReachedIff(q, vs, full, w, Rest(q, Quotes(vs), w));
  }

  function Whole(q: string, vs: seq<string>): string {
    Positional(q, Steps(q), 0, Raw, Quotes(vs), 0)
  }

  lemma FitsStart(q: string, vs: seq<string>)
    requires Marks(q, Steps(q), 0, Raw) <= |vs|
    ensures Fits(q, vs, Whole(q, vs), Walk(q, Quotes(vs), 0))
  {
    assert "" + Whole(q, vs) == Whole(q, vs);
  }

  lemma {:induction false} WalkFits(q: string, vs: seq<string>, n: nat)
    requires Marks(q, Steps(q), 0, Raw) <= |vs| && Clear(q, 0, Raw)
    ensures var w := Walk(q, Quotes(vs), n); Fits(q, vs, Whole(q, vs), w) && Clear(q, w.i, w.ctx)
  {
    if n == 0 {
      FitsStart(q, vs);
    } else {
      WalkFits(q, vs, n - 1);
      var w := Walk(q, Quotes(vs), n - 1);
      if w.i < |q| { FitsNext(q, vs, Whole(q, vs), w); }
    }
  }

  lemma {:induction false} WalkAlone(q: string, vs: seq<string>, n: nat)
    requires Alone(q, 0, Raw, false)
    ensures var w := Walk(q, Quotes(vs), n); w.i <= |q| && Alone(q, w.i, w.ctx, w.after)
  {
    if n > 0 { WalkAlone(q, vs, n - 1); }
  }

  /** The bound text keeps the context at a place of the query. */
  ghost predicate KeepsContext(text: string, w: Place) {
    w.out <= text && Reaches(text, 0, Raw, |w.out|, w.ctx)
  }

  /** The bound text keeps the context of every token of the query that is no marker, and at the end. */
  ghost predicate KeepsContexts(q: string, vs: seq<string>, text: string) {
    forall n: nat :: var w := Walk(q, Quotes(vs), n); (w.i < |q| && Mark(q, w.i, w.ctx)) || KeepsContext(text, w)
  }

  /** The markers' places included: each literal begins in raw text. */
  ghost predicate KeepsAll(q: string, vs: seq<string>, text: string) {
    forall n: nat :: KeepsContext(text, Walk(q, Quotes(vs), n))
  }

  /** A quote stands directly behind the marker at `w`. */
  predicate Bad(q: string, w: Place) {
    w.i + 1 < |q| && Mark(q, w.i, w.ctx) && q[w.i + 1] == '\''
  }

  lemma ClearNext(q: string, lits: seq<string>, w: Place)
    requires w.i < |q|
    ensures var w' := Next(q, lits, w);
      w.i < w'.i <= |q| && (Clear(q, w.i, w.ctx) <==> !Bad(q, w) && Clear(q, w'.i, w'.ctx))
  {
  }

  lemma AloneNext(q: string, lits: seq<string>, w: Place)
    requires w.i < |q| && (w.after ==> q[w.i] != '\'')
    ensures var w' := Next(q, lits, w);
      w.i < w'.i <= |q|
      && (Alone(q, w.i, w.ctx, w.after) <==> !Touches(q, w) && !Bad(q, w) && Alone(q, w'.i, w'.ctx, w'.after))
  {
  }

  /** The context of a token of the query is lost in the bound text. */
  ghost predicate Loses(q: string, full: string, w: Place) {
    w.i < |q| && !Mark(q, w.i, w.ctx) && !KeepsContext(full, w)
  }

  ghost predicate Unclear(q: string, vs: seq<string>, full: string, w: Place) {
    Fits(q, vs, full, w) && !Clear(q, w.i, w.ctx)
  }

  ghost predicate NotAlone(q: string, vs: seq<string>, full: string, w: Place) {
    Fits(q, vs, full, w) && !Alone(q, w.i, w.ctx, w.after)
  }

  lemma UnclearNext(q: string, vs: seq<string>, full: string, w: Place)
    requires Unclear(q, vs, full, w)
    ensures var w' := Next(q, Quotes(vs), w); w.i < w'.i <= |q| && (Loses(q, full, w') || Unclear(q, vs, full, w'))
  {
    FitsNext(q, vs, full, w);
    ClearNext(q, Quotes(vs), w);
    if Bad(q, w) { ComesReached(q, vs, full, Next(q, Quotes(vs), w)); }
  }

  lemma NotAloneNext(q: string, vs: seq<string>, full: string, w: Place)
    requires NotAlone(q, vs, full, w) && KeepsContext(full, w)
    ensures var w' := Next(q, Quotes(vs), w);
      w.i < w'.i <= |q| && (!KeepsContext(full, w') || NotAlone(q, vs, full, w'))
  {
    FitsNext(q, vs, full, w);
    AloneNext(q, Quotes(vs), w);
    ComesReached(q, vs, full, w);
    if Bad(q, w) { ComesReached(q, vs, full, Next(q, Quotes(vs), w)); }
  }

  /** Along a walk that advances, what is searched for turns up. */
  lemma {:induction false} Search(at: nat -> Place, end: nat, going: Place -> bool, found: Place -> bool, n: nat)
      returns (m: nat)
    requires forall k: nat :: going(at(k)) && !found(at(k)) ==>
      at(k).i < at(k + 1).i <= end && (found(at(k + 1)) || going(at(k + 1)))
    requires going(at(n)) && at(n).i <= end
    ensures found(at(m))
    decreases end - at(n).i
  {
    if found(at(n)) { m := n; }
    else if found(at(n + 1)) { m := n + 1; }
    else { m := Search(at, end, going, found, n + 1); }
  }

  lemma FindQuote(q: string, vs: seq<string>, full: string) returns (m: nat)
    requires Unclear(q, vs, full, Walk(q, Quotes(vs), 0))
    ensures Loses(q, full, Walk(q, Quotes(vs), m))
  {
    var at := (n: nat) => Walk(q, Quotes(vs), n);
    forall k: nat | Unclear(q, vs, full, at(k)) && !Loses(q, full, at(k))
      ensures at(k).i < at(k + 1).i <= |q| && (Loses(q, full, at(k + 1)) || Unclear(q, vs, full, at(k + 1)))
    {
      UnclearNext(q, vs, full, at(k));
    }
    m := Search(at, |q|, w => Unclear(q, vs, full, w), w => Loses(q, full, w), 0);
  }

  lemma FindTouch(q: string, vs: seq<string>, full: string) returns (m: nat)
    requires NotAlone(q, vs, full, Walk(q, Quotes(vs), 0))
    ensures !KeepsContext(full, Walk(q, Quotes(vs), m))
  {
    var at := (n: nat) => Walk(q, Quotes(vs), n);
    forall k: nat | NotAlone(q, vs, full, at(k)) && KeepsContext(full, at(k))
      ensures at(k).i < at(k + 1).i <= |q| && (!KeepsContext(full, at(k + 1)) || NotAlone(q, vs, full, at(k + 1)))
    {
      NotAloneNext(q, vs, full, at(k));
    }
    m := Search(at, |q|, w => NotAlone(q, vs, full, w), w => !KeepsContext(full, w), 0);
  }

  /** After binding strings, the lexer over the bound query is in the same context at every token of the
      query that is no marker, and at its end, exactly if no marker stands directly before a single quote. */
  lemma Surroundings(q: string, vs: seq<string>)
    requires Marks(q, Steps(q), 0, Raw) <= |vs|
    ensures KeepsContexts(q, vs, Whole(q, vs)) <==> Clear(q, 0, Raw)
  {
    if Clear(q, 0, Raw) {
      forall n: nat
        ensures var w := Walk(q, Quotes(vs), n); (w.i < |q| && Mark(q, w.i, w.ctx)) || KeepsContext(Whole(q, vs), w)
      {
        WalkFits(q, vs, n);
        ComesReached(q, vs, Whole(q, vs), Walk(q, Quotes(vs), n));
      }
    } else {
      FitsStart(q, vs);
      var m := FindQuote(q, vs, Whole(q, vs));
    }
  }

  /** Every literal stands alone, joined to no other, exactly if in addition no marker stands directly
      behind another one or behind the closing quote of a literal. */
  lemma Apart(q: string, vs: seq<string>)
    requires Marks(q, Steps(q), 0, Raw) <= |vs|
    ensures KeepsAll(q, vs, Whole(q, vs)) <==> Alone(q, 0, Raw, false)
  {
    if Alone(q, 0, Raw, false) {
      AloneClear(q, 0, Raw, false);
      forall n: nat ensures KeepsContext(Whole(q, vs), Walk(q, Quotes(vs), n)) {
        WalkFits(q, vs, n);
        WalkAlone(q, vs, n);
        ComesReached(q, vs, Whole(q, vs), Walk(q, Quotes(vs), n));
      }
    } else {
      FitsStart(q, vs);
      var m := FindTouch(q, vs, Whole(q, vs));
    }
  }

  /** Binding string arguments. */
  method BindStrings(q: string, vs: seq<string>) returns (r: Bound)
    ensures r.Bound? <==> Marks(q, Steps(q), 0, Raw) <= |vs|
    ensures r.Bound? ==> (KeepsContexts(q, vs, r.text) <==> Clear(q, 0, Raw))
    ensures r.Bound? ==> (KeepsAll(q, vs, r.text) <==> Alone(q, 0, Raw, false))
  {
    var args := seq(|vs|, k requires 0 <= k < |vs| => Some(Quote(vs[k])));
    assert Literals(args) == Quotes(vs);
    r := BindPositional(q, args);
    if r.Bound? {
      Surroundings(q, vs);
      Apart(q, vs);
    }
  }

  /** The conditions at three queries: a quote right behind a marker, one before it, and two markers. */
  lemma QuoteBehind()
    ensures Marks("?'", Steps("?'"), 0, Raw) == 1 && !Clear("?'", 0, Raw)
  {
  }

  lemma QuoteBefore()
    ensures Marks("''?", Steps("''?"), 0, Raw) == 1 && Clear("''?", 0, Raw) && !Alone("''?", 0, Raw, false)
  {
    assert Steps("''?")(0, Raw) == Lexed(Single, 1) && Steps("''?")(1, Single) == Lexed(Raw, 2);
    assert Marks("''?", Steps("''?"), 2, Raw) == 1;
  }

  lemma MarkBehind()
    ensures Marks("??", Steps("??"), 0, Raw) == 2 && Clear("??", 0, Raw) && !Alone("??", 0, Raw, false)
  {
    var q := "??";
    assert Mark(q, 0, Raw) && Mark(q, 1, Raw) && !EscapedMark(q, 0, Raw) && !EscapedMark(q, 1, Raw);
    TwoMarks(q, Steps(q));
  }

  /** Two markers and nothing else. */
  lemma TwoMarks(q: string, step: Stepper)
    requires |q| == 2 && Mark(q, 0, Raw) && Mark(q, 1, Raw)
    ensures Marks(q, step, 0, Raw) == 2 && Clear(q, 0, Raw) && !Alone(q, 0, Raw, false)
  {
    assert Marks(q, step, 2, Raw) == 0 && Clear(q, 2, Raw);
    assert Marks(q, step, 1, Raw) == 1 && Clear(q, 1, Raw) && !Alone(q, 1, Raw, true);
  }

  /** Binding any strings there: in the first query a context is lost, in the others literals are joined. */
  lemma Joined(q: string, vs: seq<string>)
    requires (q == "?'" && |vs| == 1) || (q == "''?" && |vs| == 1) || (q == "??" && |vs| == 2)
    ensures !KeepsAll(q, vs, Whole(q, vs)) && (KeepsContexts(q, vs, Whole(q, vs)) <==> q != "?'")
  {
    QuoteBehind();
    QuoteBefore();
    MarkBehind();
    assert Marks(q, Steps(q), 0, Raw) <= |vs| && (Clear(q, 0, Raw) <==> q != "?'");
    Surroundings(q, vs);
    AloneClear(q, 0, Raw, false);
    Apart(q, vs);
  }
}
