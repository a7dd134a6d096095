/** Client-side parameter binding (bind.go): markers in raw query text are replaced by literals. */
module Bind {
  import opened Base
  import opened Lexer

  // ---------------------------------------------------------------- positional markers: reference

  /** A `?` in raw text. */
  predicate Mark(q: string, i: nat, ctx: Ctx)
    requires i < |q|
  {
    ctx == Raw && q[i] == '?'
  }

  /** An escaped `?`, which becomes a plain one; only in raw and single-quoted text. */
  predicate EscapedMark(q: string, i: nat, ctx: Ctx)
    requires i < |q|
  {
    (ctx == Raw || ctx == Single) && q[i] == '\\' && i + 1 < |q| && q[i + 1] == '?'
  }

  function Literal(lits: seq<string>, k: nat): string {
    if k < |lits| then lits[k] else ""
  }

  /** The rewriting from token start `i`: the k-th marker becomes the k-th literal. */
  function Positional(q: string, step: Stepper, i: nat, ctx: Ctx, lits: seq<string>, k: nat): string
    decreases |q| - i
  {
    if i >= |q| then ""
    else if EscapedMark(q, i, ctx) then "?" + Positional(q, step, i + 2, ctx, lits, k)
    else if Mark(q, i, ctx) then Literal(lits, k) + Positional(q, step, i + 1, ctx, lits, k + 1)
    else
      var s := step(i, ctx);
      if i < s.next <= |q| then q[i..s.next] + Positional(q, step, s.next, s.ctx, lits, k) else ""
  }

  /** How many markers there are from `i` on. */
  function Marks(q: string, step: Stepper, i: nat, ctx: Ctx): nat
    decreases |q| - i
  {
    if i >= |q| then 0
    else if EscapedMark(q, i, ctx) then Marks(q, step, i + 2, ctx)
    else if Mark(q, i, ctx) then 1 + Marks(q, step, i + 1, ctx)
    else if i < step(i, ctx).next then Marks(q, step, step(i, ctx).next, step(i, ctx).ctx) else 0
  }

  datatype Bound = Bound(text: string) | FormatError | NoArgument

  /** A rendered argument, or None if it cannot be rendered. */
  type Rendered = Option<string>

  function Literals(args: seq<Rendered>): (r: seq<string>)
    ensures |r| == |args|
  {
    seq(|args|, k requires 0 <= k < |args| => if args[k].Some? then args[k].value else "")
  }

  ghost predicate Renders(args: seq<Rendered>, lits: seq<string>) {
    |lits| == |args| && forall k | 0 <= k < |args| :: args[k].Some? ==> lits[k] == args[k].value
  }

  ghost predicate AllRendered(args: seq<Rendered>, n: nat) {
    forall k | 0 <= k < n && k < |args| :: args[k].Some?
  }

  /** Arguments are rendered as their markers come up. */
  ghost predicate PositionalSpec(q: string, args: seq<Rendered>, r: Bound) {
    var marks := Marks(q, Steps(q), 0, Raw);
    if !AllRendered(args, marks) then r == FormatError
    else if marks > |args| then r == NoArgument
    else r == Bound(Positional(q, Steps(q), 0, Raw, Literals(args), 0))
  }

  // ---------------------------------------------------------------- positional markers: the scanner

  /** The scanner is between the backslash and the `?` of an escaped marker. */
  predicate Mid(q: string, i: nat, ctx: Ctx)
    requires i <= |q|
  {
    0 < i < |q| && q[i] == '?' && q[i - 1] == '\\' && (ctx == Raw || ctx == Single)
  }

  /** The token start the scanner is at. */
  function TokenStart(q: string, i: nat, ctx: Ctx): nat
    requires i <= |q|
  {
    if Mid(q, i, ctx) then i - 1 else i
  }

  /** What was copied, what is still to be copied and what is to come make up one of the texts in
      `whole`; that is the rewritten query alone in the end. */
  ghost predicate Copied(q: string, buf: string, last: int, b: nat, rest: string, whole: set<string>) {
    -1 <= last < b <= |q| && buf + q[last + 1..b] + rest in whole
  }

  lemma CopiedMore(q: string, buf: string, last: int, b: nat, c: nat, rest: string, whole: set<string>)
    requires b <= c <= |q| && Copied(q, buf, last, b, q[b..c] + rest, whole)
    ensures Copied(q, buf, last, c, rest, whole)
  {
    assert q[last + 1..c] == q[last + 1..b] + q[b..c];
    assert buf + q[last + 1..b] + (q[b..c] + rest) == buf + (q[last + 1..b] + q[b..c]) + rest;
  }

  /** A replacement: text up to `b` is copied, then `lit`; the scanner goes on behind `c`. */
  lemma CopiedReplaced(q: string, buf: string, last: int, b: nat, c: nat, lit: string, rest: string, whole: set<string>)
    requires b <= c < |q| && Copied(q, buf, last, b, lit + rest, whole)
    ensures Copied(q, buf + q[last + 1..b] + lit, c, c + 1, rest, whole)
  {
    assert q[c + 1..c + 1] == "";
    assert buf + q[last + 1..b] + lit + "" + rest == buf + q[last + 1..b] + (lit + rest);
  }

  /** What a scan is to come to: the tokens and literals it goes by, the number of markers and the rewritten
      query. */
  datatype Goal = Goal(step: Stepper, lits: seq<string>, marks: nat, whole: set<string>)

  /** The scanner's counters. */
  datatype Scan = Scan(buf: string, last: int, argIndex: nat, unbind: nat)

  /** An ordinary byte: the scanner advances by the token. */
  lemma AdvanceToken(q: string, g: Goal, i: nat, ctx: Ctx, s: Scan, k: nat)
    requires Lexes(q, g.step) && i < |q| && q[i] != '?'
    requires Copied(q, s.buf, s.last, i, Positional(q, g.step, i, ctx, g.lits, k), g.whole)
    ensures var l := g.step(i, ctx); var b := TokenStart(q, l.next, l.ctx);
      && Copied(q, s.buf, s.last, b, Positional(q, g.step, b, l.ctx, g.lits, k), g.whole)
      && Marks(q, g.step, b, l.ctx) == Marks(q, g.step, i, ctx)
  {
    var l := g.step(i, ctx);
    if EscapedMark(q, i, ctx) {
      assert Token(q, i, ctx, g.step(i, ctx));
    } else {
      NotMid(q, g.step, i, ctx);
      CopiedMore(q, s.buf, s.last, i, l.next, Positional(q, g.step, l.next, l.ctx, g.lits, k), g.whole);
    }
  }

  lemma NotMid(q: string, step: Stepper, i: nat, ctx: Ctx)
    requires Lexes(q, step) && i < |q| && !EscapedMark(q, i, ctx)
    ensures !Mid(q, step(i, ctx).next, step(i, ctx).ctx)
  {
  }

  /** A `?` that is not a marker is copied. */
  lemma AdvanceVerbatim(q: string, g: Goal, i: nat, ctx: Ctx, s: Scan, k: nat)
    requires Lexes(q, g.step) && i < |q| && q[i] == '?' && ctx != Raw
    requires Copied(q, s.buf, s.last, i, Positional(q, g.step, i, ctx, g.lits, k), g.whole)
    ensures !Mid(q, i + 1, ctx) && Marks(q, g.step, i + 1, ctx) == Marks(q, g.step, i, ctx)
    ensures Copied(q, s.buf, s.last, i + 1, Positional(q, g.step, i + 1, ctx, g.lits, k), g.whole)
  {
    assert Token(q, i, ctx, g.step(i, ctx));
    CopiedMore(q, s.buf, s.last, i, i + 1, Positional(q, g.step, i + 1, ctx, g.lits, k), g.whole);
  }

  lemma AdvanceEscaped(q: string, g: Goal, i: nat, ctx: Ctx, s: Scan, k: nat)
    requires Lexes(q, g.step) && i <= |q| && Mid(q, i, ctx)
    requires Copied(q, s.buf, s.last, i - 1, Positional(q, g.step, i - 1, ctx, g.lits, k), g.whole)
    ensures !Mid(q, i + 1, ctx) && Marks(q, g.step, i + 1, ctx) == Marks(q, g.step, i - 1, ctx)
    ensures Copied(q, s.buf + q[s.last + 1..i - 1] + "?", i, i + 1,
                   Positional(q, g.step, i + 1, ctx, g.lits, k), g.whole)
  {
    CopiedReplaced(q, s.buf, s.last, i - 1, i, "?", Positional(q, g.step, i + 1, ctx, g.lits, k), g.whole);
  }

  lemma AdvanceMark(q: string, g: Goal, i: nat, s: Scan, k: nat)
    requires Lexes(q, g.step) && i < |q| && q[i] == '?'
    requires Copied(q, s.buf, s.last, i, Positional(q, g.step, i, Raw, g.lits, k), g.whole)
    ensures !Mid(q, i + 1, Raw) && Marks(q, g.step, i, Raw) == Marks(q, g.step, i + 1, Raw) + 1
    ensures Copied(q, s.buf + q[s.last + 1..i] + Literal(g.lits, k), i, i + 1,
                   Positional(q, g.step, i + 1, Raw, g.lits, k + 1), g.whole)
  {
    var rest := Positional(q, g.step, i + 1, Raw, g.lits, k + 1);
    CopiedReplaced(q, s.buf, s.last, i, i, Literal(g.lits, k), rest, g.whole);
  }

  lemma AdvanceUnbound(q: string, g: Goal, i: nat, s: Scan, k: nat)
    requires Lexes(q, g.step) && i < |q| && q[i] == '?' && k >= |g.lits|
    requires Copied(q, s.buf, s.last, i, Positional(q, g.step, i, Raw, g.lits, k), g.whole)
    ensures !Mid(q, i + 1, Raw) && Marks(q, g.step, i, Raw) == Marks(q, g.step, i + 1, Raw) + 1
    ensures Copied(q, s.buf + q[s.last + 1..i], i, i + 1, Positional(q, g.step, i + 1, Raw, g.lits, k + 1), g.whole)
  {
    AdvanceMark(q, g, i, s, k);
    assert s.buf + q[s.last + 1..i] + "" == s.buf + q[s.last + 1..i];
  }

  ghost function GoalOf(q: string, args: seq<Rendered>): Goal {
    Goal(Steps(q), Literals(args), Marks(q, Steps(q), 0, Raw), {Positional(q, Steps(q), 0, Raw, Literals(args), 0)})
  }

  /** The scanner's state at index `i`. */
  ghost predicate Scanning(q: string, args: seq<Rendered>, g: Goal, i: nat, ctx: Ctx, s: Scan) {
    && i <= |q| && Lexes(q, g.step) && Counting(args, s) && var b := TokenStart(q, i, ctx);
      && s.argIndex + s.unbind + Marks(q, g.step, b, ctx) == g.marks
      && Copied(q, s.buf, s.last, b, Positional(q, g.step, b, ctx, g.lits, s.argIndex + s.unbind), g.whole)
  }

  ghost predicate Counting(args: seq<Rendered>, s: Scan) {
    && s.argIndex <= |args| && (s.unbind > 0 ==> s.argIndex == |args|) && AllRendered(args, s.argIndex)
    && (s.last < 0 ==> s.buf == "" && s.argIndex == s.unbind == 0)
  }

  lemma ScanVerbatim(q: string, args: seq<Rendered>, g: Goal, i: nat, ctx: Ctx, s: Scan)
    requires i < |q| && q[i] == '?' && ctx != Raw && !Mid(q, i, ctx) && Scanning(q, args, g, i, ctx, s)
    ensures Scanning(q, args, g, i + 1, ctx, s)
  {
    AdvanceVerbatim(q, g, i, ctx, s, s.argIndex + s.unbind);
  }

  lemma ScanEscaped(q: string, args: seq<Rendered>, g: Goal, i: nat, ctx: Ctx, s: Scan)
    requires i < |q| && Mid(q, i, ctx) && Scanning(q, args, g, i, ctx, s)
    ensures 0 <= s.last + 1 <= i - 1
    ensures Scanning(q, args, g, i + 1, ctx, s.(buf := s.buf + q[s.last + 1..i - 1] + "?", last := i))
  {
    AdvanceEscaped(q, g, i, ctx, s, s.argIndex + s.unbind);
  }

  lemma ScanFilled(q: string, args: seq<Rendered>, g: Goal, i: nat, s: Scan)
    requires i < |q| && q[i] == '?' && !Mid(q, i, Raw) && Scanning(q, args, g, i, Raw, s) && Renders(args, g.lits)
    requires s.argIndex < |args| && args[s.argIndex].Some?
    ensures 0 <= s.last + 1 <= i
    ensures Scanning(q, args, g, i + 1, Raw,
                     Scan(s.buf + q[s.last + 1..i] + args[s.argIndex].value, i, s.argIndex + 1, s.unbind))
  {
    AdvanceMark(q, g, i, s, s.argIndex + s.unbind);
  }

  lemma ScanUnbound(q: string, args: seq<Rendered>, g: Goal, i: nat, s: Scan)
    requires i < |q| && q[i] == '?' && !Mid(q, i, Raw) && Scanning(q, args, g, i, Raw, s) && |g.lits| == |args|
    requires s.argIndex == |args|
    ensures 0 <= s.last + 1 <= i
    ensures Scanning(q, args, g, i + 1, Raw, Scan(s.buf + q[s.last + 1..i], i, s.argIndex, s.unbind + 1))
  {
    AdvanceUnbound(q, g, i, s, s.argIndex + s.unbind);
  }

  /** A marker counts: if its argument cannot be rendered the query cannot be bound. */
  lemma ScanFails(q: string, args: seq<Rendered>, g: Goal, i: nat, s: Scan)
    requires i < |q| && q[i] == '?' && !Mid(q, i, Raw) && Scanning(q, args, g, i, Raw, s)
    ensures s.argIndex < g.marks
  {
  }

  lemma ScanToken(q: string, args: seq<Rendered>, g: Goal, i: nat, ctx: Ctx, s: Scan)
    requires i < |q| && q[i] != '?' && Scanning(q, args, g, i, ctx, s)
    ensures Scanning(q, args, g, g.step(i, ctx).next, g.step(i, ctx).ctx, s)
  {
    AdvanceToken(q, g, i, ctx, s, s.argIndex + s.unbind);
  }

  lemma ScanStart(q: string, args: seq<Rendered>)
    ensures Scanning(q, args, GoalOf(q, args), 0, Raw, Scan("", -1, 0, 0))
  {
    StepsLex(q);
    PositionalStart(q, Positional(q, Steps(q), 0, Raw, Literals(args), 0));
  }

  /** At the end the copied text and the remainder are the rewriting. */
  lemma ScanEnd(q: string, args: seq<Rendered>, ctx: Ctx, s: Scan)
    requires Scanning(q, args, GoalOf(q, args), |q|, ctx, s)
    ensures -1 <= s.last < |q|
    ensures PositionalSpec(q, args, if s.unbind > 0 then NoArgument else Bound(s.buf + q[s.last + 1..]))
    ensures s.last < 0 ==> s.unbind == 0 && s.buf + q[s.last + 1..] == q
  {
  }

  /** A `?` at index `i`. */
  method Question(q: string, args: seq<Rendered>, ghost g: Goal, i: nat, state: QuoteState, s: Scan)
      returns (failed: bool, s': Scan)
    requires i < |q| && q[i] == '?' && state.Valid()
    requires Scanning(q, args, g, i, state.Context(), s) && Renders(args, g.lits)
    ensures !failed ==> Scanning(q, args, g, i + 1, state.Context(), s')
    ensures failed ==> !AllRendered(args, g.marks)
  {
    failed, s' := false, s;
    if state.InIdentifierOrComment() {
      ScanVerbatim(q, args, g, i, state.Context(), s);
    } else if i > 0 && q[i - 1] == '\\' {
      ScanEscaped(q, args, g, i, state.Context(), s);
      s' := s.(buf := s.buf + q[s.last + 1..i - 1] + "?", last := i);
    } else if state.inSingle {
      ScanVerbatim(q, args, g, i, state.Context(), s);
    } else {
      failed, s' := Replace(q, args, g, i, s);
    }
  }

  method Replace(q: string, args: seq<Rendered>, ghost g: Goal, i: nat, s: Scan) returns (failed: bool, s': Scan)
    requires i < |q| && q[i] == '?' && !Mid(q, i, Raw) && Scanning(q, args, g, i, Raw, s) && Renders(args, g.lits)
    ensures !failed ==> Scanning(q, args, g, i + 1, Raw, s')
    ensures failed ==> !AllRendered(args, g.marks)
  {
    if s.argIndex < |args| {
      if args[s.argIndex].None? {
        ScanFails(q, args, g, i, s);
        return true, s;
      }
      s' := Fill(q, args, g, i, s);
    } else {
      s' := Skip(q, args, g, i, s);
    }
    failed := false;
  }

  /** A marker with an argument. */
  method Fill(q: string, args: seq<Rendered>, ghost g: Goal, i: nat, s: Scan) returns (s': Scan)
    requires i < |q| && q[i] == '?' && !Mid(q, i, Raw) && Scanning(q, args, g, i, Raw, s) && Renders(args, g.lits)
    requires s.argIndex < |args| && args[s.argIndex].Some?
    ensures Scanning(q, args, g, i + 1, Raw, s')
  {
    ScanFilled(q, args, g, i, s);
    s' := Scan(s.buf + q[s.last + 1..i] + args[s.argIndex].value, i, s.argIndex + 1, s.unbind);
  }

  /** A marker without one. */
  method Skip(q: string, args: seq<Rendered>, ghost g: Goal, i: nat, s: Scan) returns (s': Scan)
    requires i < |q| && q[i] == '?' && !Mid(q, i, Raw) && Scanning(q, args, g, i, Raw, s) && Renders(args, g.lits)
    requires s.argIndex == |args|
    ensures Scanning(q, args, g, i + 1, Raw, s')
  {
    ScanUnbound(q, args, g, i, s);
    s' := Scan(s.buf + q[s.last + 1..i], i, s.argIndex, s.unbind + 1);
  }

  /** One turn of the scan. */
  method ScanNext(q: string, args: seq<Rendered>, ghost g: Goal, i: nat, state: QuoteState, s: Scan)
      returns (failed: bool, s': Scan, i': nat)
    requires g.step == Steps(q)
    requires i < |q| && state.Valid() && Scanning(q, args, g, i, state.Context(), s) && Renders(args, g.lits)
    modifies state
    ensures state.Valid() && i < i' <= |q|
    ensures if failed then !AllRendered(args, g.marks) else Scanning(q, args, g, i', state.Context(), s')
  {
    if q[i] == '?' {
      failed, s' := Question(q, args, g, i, state, s);
      i' := i + 1;
    } else {
      i' := Pass(q, args, g, i, state, s);
      failed, s' := false, s;
    }
  }

  /** A byte that is no `?`. */
  method Pass(q: string, args: seq<Rendered>, ghost g: Goal, i: nat, state: QuoteState, ghost s: Scan) returns (i': nat)
    requires g.step == Steps(q)
    requires i < |q| && q[i] != '?' && state.Valid() && Scanning(q, args, g, i, state.Context(), s)
    modifies state
    ensures state.Valid() && i < i' <= |q| && Scanning(q, args, g, i', state.Context(), s)
  {
    ScanToken(q, args, g, i, state.Context(), s);
    assert g.step(i, state.Context()) == Step(q, i, state.Context());
    var end := state.Update(q, i);
    i' := end + 1;
  }

  method ScanAll(q: string, args: seq<Rendered>, ghost g: Goal) returns (s: Scan, failed: bool, ghost ctx: Ctx)
    requires g.step == Steps(q) && Renders(args, g.lits) && Scanning(q, args, g, 0, Raw, Scan("", -1, 0, 0))
    ensures if failed then !AllRendered(args, g.marks) else Scanning(q, args, g, |q|, ctx, s)
  {
    s, failed := Scan("", -1, 0, 0), false;
    var state := new QuoteState();
    var i := 0;
    ctx := Raw;
    while i < |q|
      invariant i <= |q| && state.Valid() && fresh(state)
      invariant ctx == state.Context() && !failed && Scanning(q, args, g, i, ctx, s)
    {
      failed, s, i := ScanNext(q, args, g, i, state, s);
      ctx := state.Context();
      if failed { return; }
    }
  }

  /** Replaces the markers in order; unescapes escaped ones. */
  method BindPositional(q: string, args: seq<Rendered>) returns (r: Bound)
    ensures PositionalSpec(q, args, r)
  {
    ghost var ctx;
    var s, failed;
    ScanStart(q, args);
    s, failed, ctx := ScanAll(q, args, GoalOf(q, args));
    if failed { return FormatError; }
    ScanEnd(q, args, ctx, s);
    if s.last < 0 { return Bound(q); }
    var buf := s.buf + q[s.last + 1..];
    if s.unbind > 0 { return NoArgument; }
    r := Bound(buf);
  }

  lemma PositionalStart(q: string, text: string)
    ensures Copied(q, "", -1, 0, text, {text})
  {
    assert q[0..0] == "" && "" + "" + text == text;
  }

  lemma Finished(q: string, buf: string, last: int, text: string)
    requires Copied(q, buf, last, |q|, "", {text})
    ensures buf + q[last + 1..] == text && (last < 0 && buf == "" ==> text == q)
  {
  }
}
