/** The quote and comment lexer that the bind scanners share (bind.go). Queries are byte strings; each
    `char` stands for one byte. */
module Lexer {

  /** Where in the query text a byte lies. Block comments nest. */
  datatype Ctx = Raw | Backtick | Single | Double | Line | Block(depth: nat)

  /** The context after a token and the position behind it. */
  datatype Lexed = Lexed(ctx: Ctx, next: nat)

  /** How many backslashes stand directly before a position. */
  function Run(q: string, pos: nat): nat
    requires pos <= |q|
  {
    if pos > 0 && q[pos - 1] == '\\' then Run(q, pos - 1) + 1 else 0
  }

  predicate Escaped(q: string, pos: nat)
    requires pos <= |q|
  {
    Run(q, pos) % 2 == 1
  }

  predicate Two(q: string, pos: nat, a: char, b: char)
    requires pos < |q|
  {
    q[pos] == a && pos + 1 < |q| && q[pos + 1] == b
  }

  /** In quotes only an unescaped delimiter counts, and a doubled one stays inside. */
  function QuoteStep(q: string, pos: nat, ctx: Ctx, delim: char): Lexed
    requires pos < |q|
  {
    if q[pos] == delim && !Escaped(q, pos) then
      if Two(q, pos, delim, delim) then Lexed(ctx, pos + 2) else Lexed(Raw, pos + 1)
    else Lexed(ctx, pos + 1)
  }

  function BlockStep(q: string, pos: nat, depth: nat): Lexed
    requires pos < |q|
  {
    if Two(q, pos, '/', '*') then Lexed(Block(depth + 1), pos + 2)
    else if Two(q, pos, '*', '/') then Lexed(if depth <= 1 then Raw else Block(depth - 1), pos + 2)
    else Lexed(Block(depth), pos + 1)
  }

  /** In raw text an escaped byte opens nothing. */
  function RawStep(q: string, pos: nat): Lexed
    requires pos < |q|
  {
    if Escaped(q, pos) then Lexed(Raw, pos + 1)
    else if q[pos] == '`' then Lexed(Backtick, pos + 1)
    else if q[pos] == '\'' then Lexed(Single, pos + 1)
    else if q[pos] == '"' then Lexed(Double, pos + 1)
    else if q[pos] == '#' then Lexed(Line, pos + 1)
    else if Two(q, pos, '-', '-') then Lexed(Line, pos + 2)
    else if Two(q, pos, '/', '*') then Lexed(Block(1), pos + 2)
    else Lexed(Raw, pos + 1)
  }

  /** One token of the query. */
  function Step(q: string, pos: nat, ctx: Ctx): (r: Lexed)
    requires pos < |q|
    ensures pos < r.next <= pos + 2 && r.next <= |q|
  {
    match ctx
    case Raw => RawStep(q, pos)
    case Backtick => QuoteStep(q, pos, ctx, '`')
    case Single => QuoteStep(q, pos, ctx, '\'')
    case Double => QuoteStep(q, pos, ctx, '"')
    case Line => Lexed(if q[pos] == '\n' then Raw else Line, pos + 1)
    case Block(depth) => BlockStep(q, pos, depth)
  }

  /** Bytes that are never part of a delimiter. */
  predicate Plain(c: char) {
    c != '`' && c != '\'' && c != '"' && c != '#' && c != '-' && c != '/' && c != '*' && c != '\n'
  }

  /** They leave the context alone. */
  lemma PlainStep(q: string, pos: nat, ctx: Ctx)
    requires pos < |q| && Plain(q[pos])
    ensures Step(q, pos, ctx) == Lexed(ctx, pos + 1)
  {
  }

  /** A way to cut a query into tokens; `Steps` is the lexer's. */
  type Stepper = (nat, Ctx) -> Lexed

  function Steps(q: string): Stepper {
    (i: nat, ctx: Ctx) => if i < |q| then Step(q, i, ctx) else Lexed(ctx, i)
  }

  /** What rewriting a query needs to know of its tokens. */
  ghost predicate Token(q: string, i: nat, ctx: Ctx, s: Lexed)
    requires i < |q|
  {
    && i < s.next <= i + 2 && s.next <= |q|
    && (Plain(q[i]) ==> s == Lexed(ctx, i + 1)) && (s.next == i + 2 ==> !Plain(q[i + 1]))
  }

  ghost predicate Lexes(q: string, step: Stepper) {
    forall i: nat, ctx: Ctx | i < |q| :: Token(q, i, ctx, step(i, ctx))
  }

  lemma StepsLex(q: string)
    ensures Lexes(q, Steps(q))
  {
  }

  /** Lexing from `i` in `ctx` comes to a token start at `j` in `ctx'`. */
  ghost predicate Reaches(q: string, i: nat, ctx: Ctx, j: nat, ctx': Ctx)
    requires i <= |q|
    decreases |q| - i
  {
    (i == j && ctx == ctx') || (i < j && i < |q| && Reaches(q, Step(q, i, ctx).next, Step(q, i, ctx).ctx, j, ctx'))
  }

  lemma {:induction false} ReachesStep(q: string, i: nat, ctx: Ctx, j: nat, ctx': Ctx)
    requires i <= |q| && Reaches(q, i, ctx, j, ctx') && j < |q|
    ensures Reaches(q, i, ctx, Step(q, j, ctx').next, Step(q, j, ctx').ctx)
    decreases |q| - i
  {
    var end := Step(q, j, ctx');
    if i == j && ctx == ctx' {
      assert Reaches(q, end.next, end.ctx, end.next, end.ctx);
    } else {
      ReachesStep(q, Step(q, i, ctx).next, Step(q, i, ctx).ctx, j, ctx');
    }
  }

  // ---------------------------------------------------------------- the scanner's state

  method IsEscaped(query: string, pos: nat) returns (r: bool)
    requires pos <= |query|
    ensures r == Escaped(query, pos)
  {
    var backslashes := 0;
    var i: int := pos - 1;
    while i >= 0 && query[i] == '\\'
      invariant -1 <= i < pos && backslashes + Run(query, i + 1) == Run(query, pos) && backslashes >= 0
    {
      backslashes := backslashes + 1;
      i := i - 1;
    }
    r := backslashes % 2 == 1;
  }

  class QuoteState {
    var inBacktick: bool
    var inSingle: bool
    var inDouble: bool
    var inLineComment: bool
    var blockComment: nat

    /** At most one of the contexts is on. */
    ghost predicate Valid()
      reads this
    {
      && !(inBacktick && inSingle) && !(inBacktick && inDouble) && !(inSingle && inDouble)
      && (inLineComment || blockComment > 0 ==> !inBacktick && !inSingle && !inDouble)
      && !(inLineComment && blockComment > 0)
    }

    ghost function Context(): Ctx
      reads this
    {
      if inLineComment then Line
      else if blockComment > 0 then Block(blockComment)
      else if inBacktick then Backtick
      else if inSingle then Single
      else if inDouble then Double
      else Raw
    }

    constructor ()
      ensures Valid() && Context() == Raw && fresh(this)
    {
      inBacktick, inSingle, inDouble, inLineComment, blockComment := false, false, false, false, 0;
    }

    predicate InProtectedContext()
      reads this
      ensures Valid() ==> (InProtectedContext() <==> Context() != Raw)
    {
      inBacktick || inSingle || inDouble || inLineComment || blockComment > 0
    }

    predicate InIdentifierOrComment()
      reads this
      ensures Valid() ==> (InIdentifierOrComment() <==> Context() != Raw && Context() != Single)
    {
      inBacktick || inDouble || inLineComment || blockComment > 0
    }

    /** Consumes a token at `pos` and returns the index of its last byte. */
    method Update(query: string, pos: nat) returns (last: nat)
      requires Valid() && pos < |query|
      modifies this
      ensures Valid() && Lexed(Context(), last + 1) == Step(query, pos, old(Context()))
    {
      if inLineComment {
        if query[pos] == '\n' { inLineComment := false; }
      } else if blockComment > 0 {
        if query[pos] == '/' && pos + 1 < |query| && query[pos + 1] == '*' {
          blockComment := blockComment + 1;
          return pos + 1;
        } else if query[pos] == '*' && pos + 1 < |query| && query[pos + 1] == '/' {
          blockComment := blockComment - 1;
          return pos + 1;
        }
      } else if inBacktick || inSingle || inDouble {
        last := UpdateQuoted(query, pos);
        return;
      } else {
        last := UpdateRaw(query, pos);
        return;
      }
      last := pos;
    }

    method UpdateQuoted(query: string, pos: nat) returns (last: nat)
      requires Valid() && pos < |query| && Context() in {Backtick, Single, Double}
      modifies this
      ensures Valid() && Lexed(Context(), last + 1) == Step(query, pos, old(Context()))
    {
      var escaped := IsEscaped(query, pos);
      var delim := if inBacktick then '`' else if inSingle then '\'' else '"';
      if query[pos] == delim && !escaped {
        if pos + 1 < |query| && query[pos + 1] == delim { return pos + 1; }
        if inBacktick { inBacktick := false; } else if inSingle { inSingle := false; } else { inDouble := false; }
      }
      last := pos;
    }

    method UpdateRaw(query: string, pos: nat) returns (last: nat)
      requires Valid() && pos < |query| && Context() == Raw
      modifies this
      ensures Valid() && Lexed(Context(), last + 1) == Step(query, pos, Raw)
    {
      var escaped := IsEscaped(query, pos);
      if escaped { return pos; }
      if query[pos] == '`' {
        inBacktick := true;
      } else if query[pos] == '\'' {
        inSingle := true;
      } else if query[pos] == '"' {
        inDouble := true;
      } else if query[pos] == '#' {
        inLineComment := true;
      } else if query[pos] == '-' && pos + 1 < |query| && query[pos + 1] == '-' {
        inLineComment := true;
        return pos + 1;
      } else if query[pos] == '/' && pos + 1 < |query| && query[pos + 1] == '*' {
        blockComment := blockComment + 1;
        return pos + 1;
      }
      last := pos;
    }
  }
}
