/** A native batch (conn_batch.go): its lease, the rows it buffers and its blocks. Network outcomes are arguments. */
module Batch {
  import opened Base
  import Conn = SendData

  /** One appended row, by identity. */
  type Row = nat
  /** One loan of a connection from the pool, numbered in the order of acquisition. */
  type Lease = nat

  datatype Failure =
    | AlreadySent
    | Invalid              // the stored error of a failed append
    | NoConnection
    | QueryRefused
    | WriteFailed
    | CloseFailed
    | BadColumn

  type Outcome = Option<Failure>

  /** How `sendData` ends: with the block written, with an error that leaves the connection open and bytes
      of an unfinished block behind (an error of encoding, compressing or writing a fragment before the
      last), or with an error that marks the connection closed. */
  datatype Write = Wrote | FailedOpen | FailedShut

  /** What the network and the server do during one operation. */
  datatype Net = Net(
    acquired: bool,     // a connection can be acquired
    accepted: bool,     // sendQuery and firstBlock succeed
    write: Write,       // what sendData does on an open connection
    brokenPipe: bool,   // a failed write is EPIPE or ECONNRESET
    closed: bool)       // closeQuery succeeds on an open connection

  /** The leased connection: waiting for blocks of the INSERT; open, but behind an unfinished block or
      without an accepted INSERT, so that no block written to it is read as one; or marked closed. */
  datatype Link = Ready | Astray | Shut

  /** How often a lease has been given back: once, and not at all only for the one outstanding. */
  ghost predicate LeasesSettled(acquired: nat, returned: seq<Lease>, conn: Lease, released: bool) {
    && (!released ==> 1 <= conn <= acquired)
    && forall l: Lease :: multiset(returned)[l] == if 1 <= l <= acquired && (released || l != conn) then 1 else 0
  }

  // ---------------------------------------------------------------- what the operations do

  /** A batch as its operations see it. `wire` has the blocks that reached a waiting server, `stray` those
      written where no server takes them for a block of this INSERT. */
  datatype State = State(
    sent: bool,
    failed: bool,
    released: bool,
    link: Link,
    leases: nat,
    block: seq<Row>,
    wire: seq<seq<Row>>,
    stray: seq<seq<Row>>)

  datatype Options = Options(closeOnFlush: bool, releaseConnection: bool)

  datatype Op =
    | OpAppend(row: Row, accepted: bool, halfRow: seq<Row>)
    | OpFlush(net: Net)
    | OpSend(net: Net)
    | OpClose(net: Net)
    | OpAbort
    | OpColumnOutOfRange
    | OpColumnFailed(halfRow: seq<Row>)

  datatype Done = Done(state: State, answer: Outcome)

  function Start(opt: Options): State {
    State(false, false, opt.releaseConnection, Ready, 1, [], [], [])
  }

  /** A new lease and the INSERT on it, if the old lease was given back. A refused INSERT leaves the new
      lease outstanding. */
  function Renewed(s: State, net: Net): Done {
    if !s.released then Done(s, None)
    else if !net.acquired then Done(s, Some(NoConnection))
    else if !net.accepted then Done(s.(released := false, link := Astray, leases := s.leases + 1), Some(QueryRefused))
    else Done(s.(released := false, link := Ready, leases := s.leases + 1), None)
  }

  /** What a `sendData` makes of the connection. */
  function NextLink(link: Link, write: Write): Link {
    if link.Shut? then Shut
    else match write
      case Wrote => link
      case FailedOpen => Astray
      case FailedShut => Shut
  }

  /** `sendData` of the buffered rows, if there are any. */
  function Written(s: State, net: Net): Done {
    if s.block == [] then Done(s, None)
    else if s.link.Shut? || !net.write.Wrote? then Done(s.(link := NextLink(s.link, net.write)), Some(WriteFailed))
    else if s.link.Ready? then Done(s.(wire := s.wire + [s.block]), None)
    else Done(s.(stray := s.stray + [s.block]), None)
  }

  function Closing(s: State, net: Net): Outcome {
    if s.link.Shut? || !net.closed then Some(CloseFailed) else None
  }

  function Appended(s: State, row: Row, accepted: bool, halfRow: seq<Row>): Done {
    if s.sent then Done(s, Some(AlreadySent))
    else if s.failed then Done(s, Some(Invalid))
    else if accepted then Done(s.(block := s.block + [row]), None)
    else Done(s.(block := s.block + halfRow, failed := true, released := true), Some(Invalid))
  }

  function ColumnFailed(s: State, halfRow: seq<Row>): Done {
    if s.sent then Done(s, Some(AlreadySent))
    else Done(s.(block := s.block + halfRow, failed := true, released := true), Some(Invalid))
  }

  /** A write error is the end of the lease only if the pipe is broken. */
  function Flushed(s: State, closeOnFlush: bool, net: Net): Done {
    if s.sent then Done(s, Some(AlreadySent))
    else if s.failed then Done(s, Some(Invalid))
    else
      var d := Renewed(s, net);
      if d.answer.Some? then d
      else
        var w := Written(d.state, net);
        if w.answer.Some? then Done(w.state.(released := !d.state.link.Shut? && net.brokenPipe), w.answer)
        else Done(w.state.(block := [], released := s.block != [] && closeOnFlush), None)
  }

  /** The block stays buffered, whatever becomes of it. */
  function Sent(s: State, net: Net): Done {
    if s.failed then Done(s.(sent := true, released := true), Some(Invalid))
    else
      var d := Renewed(s, net);
      if d.answer.Some? then Done(d.state.(sent := true, released := true), d.answer)
      else
        var w := Written(d.state, net);
        Done(w.state.(sent := true, released := true), if w.answer.Some? then w.answer else Closing(w.state, net))
  }

  function Closed(s: State, net: Net): Done {
    if s.sent || s.released then Done(s, None) else Done(s.(sent := true, released := true), Closing(s, net))
  }

  function Step(closeOnFlush: bool, s: State, op: Op): Done {
    match op
    case OpAppend(row, accepted, halfRow) => Appended(s, row, accepted, halfRow)
    case OpFlush(net) => Flushed(s, closeOnFlush, net)
    case OpSend(net) => Sent(s, net)
    case OpClose(net) => Closed(s, net)
    case OpAbort => Done(s.(sent := true, released := true), if s.sent then Some(AlreadySent) else None)
    case OpColumnOutOfRange => Done(s.(released := true), Some(BadColumn))
    case OpColumnFailed(halfRow) => ColumnFailed(s, halfRow)
  }

  /** A Send that got past its write. */
  predicate PastWrite(r: Outcome) {
    r == None || r == Some(CloseFailed)
  }

  lemma FlushedIntact(s: State, closeOnFlush: bool, net: Net)
    ensures var d := Flushed(s, closeOnFlush, net);
      && (d.answer.Some? ==> d.state.block == s.block && d.state.wire == s.wire && d.state.stray == s.stray)
      && (d.answer == None ==> d.state.block == [])
      && (d.answer == None && s.block != [] ==>
          (d.state.wire == s.wire + [s.block] <==> s.released || s.link.Ready?))
  {
  }

  lemma SentIntact(s: State, net: Net)
    ensures var d := Sent(s, net);
      if !PastWrite(d.answer) then d.state.wire == s.wire && d.state.stray == s.stray
      else s.block != [] ==> (d.state.wire == s.wire + [s.block] <==> s.released || s.link.Ready?)
  {
  }

  class Batch {
    const closeOnFlush: bool
    var err: bool
    var sent: bool
    var released: bool
    var conn: Lease
    var block: seq<Row>

    // the pool's and the server's side
    var link: Link
    var acquired: nat
    var returned: seq<Lease>
    var wire: seq<seq<Row>>
    var stray: seq<seq<Row>>

    function View(): State
      reads this
    {
      State(sent, err, released, link, acquired, block, wire, stray)
    }

    ghost predicate Valid()
      reads this
    {
      LeasesSettled(acquired, returned, conn, released) && (sent ==> released) && (err ==> released)
    }

    /** A batch is made with its connection leased, and at once released if the caller asked for that. */
    constructor (opt: Options)
      ensures Valid() && fresh(this) && closeOnFlush == opt.closeOnFlush && View() == Start(opt)
      ensures conn == 1 && returned == if opt.releaseConnection then [1] else []
    {
      closeOnFlush := opt.closeOnFlush;
      err, sent, block, wire, stray := false, false, [], [], [];
      released, conn, acquired, link := opt.releaseConnection, 1, 1, Ready;
      returned := if opt.releaseConnection then [1] else [];
    }

    method Release()
      modifies this`released, this`returned
      ensures released
      ensures returned == if old(released) then old(returned) else old(returned) + [conn]
      ensures old(LeasesSettled(acquired, returned, conn, released)) ==>
        LeasesSettled(acquired, returned, conn, released)
    {
      if !released {
        released := true;
        returned := returned + [conn];
      }
    }

    method Abort() returns (r: Outcome)
      requires Valid()
      modifies this`sent, this`released, this`returned
      ensures Valid() && Done(View(), r) == Step(closeOnFlush, old(View()), OpAbort)
    {
      r := if sent then Some(AlreadySent) else None;
      sent := true;
      Release();
    }

    /** `accepted` tells whether every column takes its value; a rejected row may be half in the block. */
    method Append(row: Row, accepted: bool, halfRow: seq<Row>) returns (r: Outcome)
      requires Valid()
      modifies this`err, this`released, this`returned, this`block
      ensures Valid() && Done(View(), r) == Appended(old(View()), row, accepted, halfRow)
    {
      if sent { return Some(AlreadySent); }
      if err { return Some(Invalid); }
      if !accepted {
        block := block + halfRow;
        err := true;
        Release();
        return Some(Invalid);
      }
      block := block + [row];
      r := None;
    }

    /** `Column` with an index past the last column: only the connection is given back. */
    method ColumnOutOfRange() returns (r: Outcome)
      requires Valid()
      modifies this`released, this`returned
      ensures Valid() && Done(View(), r) == Step(closeOnFlush, old(View()), OpColumnOutOfRange)
    {
      Release();
      r := Some(BadColumn);
    }

    /** A column handle whose append failed poisons the batch. */
    method ColumnAppendFailed(halfRow: seq<Row>) returns (r: Outcome)
      requires Valid()
      modifies this`err, this`released, this`returned, this`block
      ensures Valid() && Done(View(), r) == ColumnFailed(old(View()), halfRow)
    {
      if sent { return Some(AlreadySent); }
      block := block + halfRow;
      err := true;
      Release();
      r := Some(Invalid);
    }

    /** Leases a new connection and repeats the query on it. The releases of its error paths are
        written before `released` is cleared, so they give nothing back: the new lease stays
        outstanding and the flag says so. */
    method ResetConnection(net: Net) returns (r: Outcome)
      requires LeasesSettled(acquired, returned, conn, released) && released
      modifies this`conn, this`acquired, this`released, this`returned, this`link
      ensures LeasesSettled(acquired, returned, conn, released) && returned == old(returned)
      ensures Done(View(), r) == Renewed(old(View()), net)
    {
      if !net.acquired {
        conn := 0;
        return Some(NoConnection);
      }
      acquired := acquired + 1;
      conn, link := acquired, Ready;
      if !net.accepted {
        link := Astray;
        Release();
        released := false;
        return Some(QueryRefused);
      }
      released := false;
      r := None;
    }

    /** `sendData` on the leased connection. */
    method SendData(net: Net) returns (r: Outcome)
      requires block != []
      modifies this`link, this`wire, this`stray
      ensures Done(View(), r) == Written(old(View()), net)
    {
      if link.Shut? { return Some(WriteFailed); }
      match net.write
      case FailedOpen =>
        link := Astray;
        r := Some(WriteFailed);
      case FailedShut =>
        link := Shut;
        r := Some(WriteFailed);
      case Wrote =>
        if link.Ready? { wire := wire + [block]; } else { stray := stray + [block]; }
        r := None;
    }

    /** A flush that answers nil has written the rows and forgets them. They are on the wire exactly if the
        lease they went out on was still waiting for blocks; otherwise they are lost. */
    method Flush(net: Net) returns (r: Outcome)
      requires Valid()
      modifies this`conn, this`acquired, this`released, this`returned, this`link, this`wire, this`stray, this`block
      ensures Valid() && Done(View(), r) == Flushed(old(View()), closeOnFlush, net)
      ensures r == None && old(block) != [] ==>
        block == [] && (wire == old(wire) + [old(block)] <==> old(released || link.Ready?))
      ensures r != None ==> block == old(block) && wire == old(wire) && stray == old(stray)
    {
      FlushedIntact(View(), closeOnFlush, net);
      if sent { return Some(AlreadySent); }
      if err { return Some(Invalid); }
      if released {
        r := ResetConnection(net);
        if r.Some? { return; }
      }
      if block != [] {
        var shut := link.Shut?;
        r := SendData(net);
        if r.Some? {
          if !shut && net.brokenPipe { Release(); }
          return;
        }
        if closeOnFlush { Release(); }
      }
      block := [];
      r := None;
    }

    /** The lease is always given back afterwards. A Send that got past its write has put the block on
        the wire exactly if its lease was still waiting for blocks. */
    method Send(net: Net) returns (r: Outcome)
      requires Valid()
      modifies this`conn, this`acquired, this`sent, this`released, this`returned, this`link, this`wire, this`stray
      ensures Valid() && sent && released && Done(View(), r) == Sent(old(View()), net)
      ensures PastWrite(r) && block != [] ==> (wire == old(wire) + [block] <==> old(released || link.Ready?))
      ensures !PastWrite(r) ==> wire == old(wire) && stray == old(stray)
    {
      SentIntact(View(), net);
      r := Deliver(net);
      sent := true;
      Release();
    }

    /** The body of `Send` before its deferred release. */
    method Deliver(net: Net) returns (r: Outcome)
      requires Valid()
      modifies this`conn, this`acquired, this`released, this`returned, this`link, this`wire, this`stray
      ensures LeasesSettled(acquired, returned, conn, released)
      ensures Done(View().(sent := true, released := true), r) == Sent(old(View()), net)
    {
      if err { return Some(Invalid); }
      if sent || released {
        r := ResetConnection(net);
        if r.Some? { return; }
      }
      if block != [] {
        r := SendData(net);
        if r.Some? { return; }
      }
      r := if link.Shut? || !net.closed then Some(CloseFailed) else None;
    }

    method Close(net: Net) returns (r: Outcome)
      requires Valid()
      modifies this`sent, this`released, this`returned
      ensures Valid() && Done(View(), r) == Closed(old(View()), net)
    {
      if sent || released { return None; }
      r := if link.Shut? || !net.closed then Some(CloseFailed) else None;
      sent := true;
      Release();
    }
  }

  method Perform(b: Batch, op: Op) returns (r: Outcome)
    requires b.Valid()
    modifies b
    ensures b.Valid() && Done(b.View(), r) == Step(b.closeOnFlush, old(b.View()), op)
  {
    match op
    case OpAppend(row, accepted, halfRow) => r := b.Append(row, accepted, halfRow);
    case OpFlush(net) => r := b.Flush(net);
    case OpSend(net) => r := b.Send(net);
    case OpClose(net) => r := b.Close(net);
    case OpAbort => r := b.Abort();
    case OpColumnOutOfRange => r := b.ColumnOutOfRange();
    case OpColumnFailed(halfRow) => r := b.ColumnAppendFailed(halfRow);
  }

  // ---------------------------------------------------------------- whole runs

  /** A run: the operations, the batch before each and at the end, and the answers. */
  datatype Run = Run(opt: Options, ops: seq<Op>, states: seq<State>, answers: seq<Outcome>)

  ghost predicate IsStep(run: Run, n: nat)
    requires n < |run.ops| == |run.answers| == |run.states| - 1
  {
    Done(run.states[n + 1], run.answers[n]) == Step(run.opt.closeOnFlush, run.states[n], run.ops[n])
  }

  /** Each state and answer is that of the operation on the state before. */
  ghost predicate IsRun(run: Run) {
    && |run.answers| == |run.ops| == |run.states| - 1 && run.states[0] == Start(run.opt)
    && forall n: nat | n < |run.ops| :: IsStep(run, n)
  }

  /** Performs any operations. Each lease has been given back exactly once, except the outstanding one, and
      one is outstanding exactly when the batch is not released. */
  method RunBatch(opt: Options, ops: seq<Op>) returns (run: Run, returned: seq<Lease>, conn: Lease)
    ensures run.opt == opt && run.ops == ops && IsRun(run)
    ensures var end := run.states[|ops|]; end.leases >= 1 && LeasesSettled(end.leases, returned, conn, end.released)
  {
    var b := new Batch(opt);
    var states, answers := [b.View()], [];
    var i := 0;
    while i < |ops|
      invariant 0 <= i == |answers| == |states| - 1 <= |ops| && b.Valid()
      invariant fresh(b) && b.closeOnFlush == opt.closeOnFlush
      invariant b.View() == states[i] && states[0] == Start(opt)
      invariant forall n: nat | n < i :: Done(states[n + 1], answers[n]) == Step(opt.closeOnFlush, states[n], ops[n])
    {
      var r := Perform(b, ops[i]);
      states, answers := states + [b.View()], answers + [r];
      i := i + 1;
    }
    run, returned, conn := Run(opt, ops, states, answers), b.returned, b.conn;
    Leases(run, 0, |ops|);
  }

  lemma LeaseStep(closeOnFlush: bool, s: State, op: Op)
    ensures s.leases <= Step(closeOnFlush, s, op).state.leases
  {
  }

  /** Leases are only ever added. */
  lemma {:induction false} Leases(run: Run, k: nat, n: nat)
    requires IsRun(run) && k <= n <= |run.ops|
    ensures run.states[k].leases <= run.states[n].leases
    decreases n
  {
    if k < n {
      Leases(run, k, n - 1);
      assert IsStep(run, n - 1);
      LeaseStep(run.opt.closeOnFlush, run.states[n - 1], run.ops[n - 1]);
    }
  }

  // ---------------------------------------------------------------- what reaches the server

  function Taken(op: Op, r: Outcome): seq<Row> {
    if op.OpAppend? && r == None then [op.row] else []
  }

  /** The rows accepted by the first `n` operations. */
  function RowsAt(run: Run, n: nat): seq<Row>
    requires n <= |run.ops| == |run.answers|
  {
    if n == 0 then [] else RowsAt(run, n - 1) + Taken(run.ops[n - 1], run.answers[n - 1])
  }

  /** The operation is a Send that gets past its write. */
  predicate Delivers(op: Op, r: Outcome) {
    op.OpSend? && PastWrite(r)
  }

  ghost predicate NoneDelivers(run: Run, n: nat)
    requires n <= |run.ops| == |run.answers|
  {
    forall k | 0 <= k < n :: !Delivers(run.ops[k], run.answers[k])
  }

  /** Before the first delivery the rows are on the wire, astray or still buffered, and with none astray
      they are in order. */
  ghost predicate Conserved(s: State, rows: seq<Row>) {
    && (forall k | 0 <= k < |s.stray| :: s.stray[k] != [])
    && (!s.failed ==> |Concat(s.wire)| + |Concat(s.stray)| + |s.block| == |rows|)
    && (!s.failed && s.stray == [] ==> Concat(s.wire) + s.block == rows)
    && (s.stray == [] ==> Concat(s.wire) <= rows)
  }

  lemma {:induction false} RunConserved(run: Run, n: nat)
    requires IsRun(run) && n <= |run.ops| && NoneDelivers(run, n)
    ensures Conserved(run.states[n], RowsAt(run, n))
  {
    if n > 0 {
      RunConserved(run, n - 1);
      assert IsStep(run, n - 1) && !Delivers(run.ops[n - 1], run.answers[n - 1]);
      StepConserved(run.opt.closeOnFlush, run.states[n - 1], run.ops[n - 1], RowsAt(run, n - 1));
    }
  }

  /** What matters of a state for the rows. */
  predicate SameRows(s: State, t: State) {
    s.block == t.block && s.wire == t.wire && s.stray == t.stray && s.failed == t.failed
  }

  lemma StepConserved(closeOnFlush: bool, s: State, op: Op, rows: seq<Row>)
    requires Conserved(s, rows)
    ensures var d := Step(closeOnFlush, s, op);
      !Delivers(op, d.answer) ==> Conserved(d.state, rows + Taken(op, d.answer))
  {
    assert rows + [] == rows;
    match op
    case OpAppend(row, accepted, halfRow) => AppendConserved(s, row, accepted, halfRow, rows);
    case OpFlush(net) => FlushConserved(s, closeOnFlush, net, rows);
    case OpSend(net) => SentIntact(s, net);
    case OpClose(net) => {}
    case OpAbort => {}
    case OpColumnOutOfRange => {}
    case OpColumnFailed(halfRow) => {}
  }

  lemma AppendConserved(s: State, row: Row, accepted: bool, halfRow: seq<Row>, rows: seq<Row>)
    requires Conserved(s, rows)
    ensures var d := Appended(s, row, accepted, halfRow);
      Conserved(d.state, rows + if d.answer == None then [row] else [])
  {
    assert rows + [] == rows;
    assert Concat(s.wire) + (s.block + [row]) == (Concat(s.wire) + s.block) + [row];
  }

  lemma FlushConserved(s: State, closeOnFlush: bool, net: Net, rows: seq<Row>)
    requires Conserved(s, rows)
    ensures Conserved(Flushed(s, closeOnFlush, net).state, rows)
  {
    var d := Renewed(s, net);
    assert SameRows(s, d.state);
    if !s.sent && !s.failed && d.answer == None { WrittenConserved(d.state, net, rows); }
  }

  lemma WrittenConserved(s: State, net: Net, rows: seq<Row>)
    requires Conserved(s, rows) && !s.failed
    ensures var w := Written(s, net);
      if w.answer == None then Conserved(w.state.(block := []), rows) else SameRows(s, w.state)
  {
    if s.block != [] {
      OnWire(s, rows);
      WentAstray(s, rows);
    }
  }

  lemma OnWire(s: State, rows: seq<Row>)
    requires Conserved(s, rows) && !s.failed
    ensures Conserved(s.(wire := s.wire + [s.block], block := []), rows)
  {
    ConcatSnoc(s.wire, s.block);
    assert Concat(s.wire) + s.block + [] == Concat(s.wire) + s.block;
  }

  lemma WentAstray(s: State, rows: seq<Row>)
    requires Conserved(s, rows) && !s.failed && s.block != []
    ensures Conserved(s.(stray := s.stray + [s.block], block := []), rows)
  {
    ConcatSnoc(s.stray, s.block);
  }

  /** At the first delivery exactly the accepted rows are on the wire, unless a block has gone astray: then
      rows are missing. */
  lemma FirstDelivery(run: Run, n: nat)
    requires IsRun(run) && n < |run.ops| && NoneDelivers(run, n) && Delivers(run.ops[n], run.answers[n])
    ensures var s := run.states[n + 1]; s.released && (Concat(s.wire) == RowsAt(run, n + 1) <==> s.stray == [])
  {
    var rows := RowsAt(run, n);
    RunConserved(run, n);
    assert IsStep(run, n) && rows + [] == rows;
    SendConserved(run.states[n], run.ops[n].net, rows);
  }

  lemma SendConserved(s: State, net: Net, rows: seq<Row>)
    requires Conserved(s, rows)
    ensures var d := Sent(s, net);
      PastWrite(d.answer) ==> d.state.released && (Concat(d.state.wire) == rows <==> d.state.stray == [])
  {
    var d := Renewed(s, net);
    assert SameRows(s, d.state);
    if PastWrite(Sent(s, net).answer) {
      WrittenConserved(d.state, net, rows);
      var w := Written(d.state, net).state;
      Missing(w.(block := []), rows);
    }
  }

  /** With nothing buffered, the rows astray are those missing on the wire. */
  lemma Missing(s: State, rows: seq<Row>)
    requires Conserved(s, rows) && !s.failed && s.block == []
    ensures Concat(s.wire) == rows <==> s.stray == []
  {
    assert Concat(s.wire) + [] == Concat(s.wire);
    if s.stray != [] { assert Concat(s.stray) == s.stray[0] + Concat(s.stray[1..]); }
  }

  // ---------------------------------------------------------------- when a block goes astray

  /** The operation spoils the lease it leaves outstanding: a refused INSERT, or a write that fails and is
      not taken for the end of the connection. */
  predicate Spoils(s: State, op: Op) {
    op.OpFlush? && !s.sent && !s.failed && (s.released ==> op.net.acquired) &&
    ((s.released && !op.net.accepted) || (s.block != [] && op.net.write != Wrote && !op.net.brokenPipe))
  }

  lemma LinkStep(closeOnFlush: bool, s: State, op: Op)
    ensures var t := Step(closeOnFlush, s, op).state;
      !t.released ==>
        (t.link != Ready <==> Spoils(s, op) || (t.leases == s.leases && s.link != Ready))
        && (t.leases == s.leases ==> !s.released)
  {
  }

  /** Operation `k` spoilt the lease that is outstanding after `n` operations. */
  ghost predicate SpoiltBy(run: Run, n: nat, k: nat)
    requires k < n <= |run.ops| == |run.states| - 1
  {
    Spoils(run.states[k], run.ops[k]) && run.states[k + 1].leases == run.states[n].leases
  }

  ghost predicate Spoilt(run: Run, n: nat)
    requires n <= |run.ops| == |run.states| - 1
  {
    exists k :: 0 <= k < n && SpoiltBy(run, n, k)
  }

  /** An outstanding lease waits for blocks exactly if no earlier operation on it spoilt it. */
  lemma {:induction false} ReadyIff(run: Run, n: nat)
    requires IsRun(run) && n <= |run.ops| && !run.states[n].released
    ensures run.states[n].link.Ready? <==> !Spoilt(run, n)
  {
    if n > 0 {
      var s, t := run.states[n - 1], run.states[n];
      assert IsStep(run, n - 1);
      LinkStep(run.opt.closeOnFlush, s, run.ops[n - 1]);
      if t.leases == s.leases { ReadyIff(run, n - 1); }
      SpoiltStep(run, n - 1);
    }
  }

  lemma SpoiltStep(run: Run, n: nat)
    requires IsRun(run) && n < |run.ops|
    ensures var s, t := run.states[n], run.states[n + 1];
      Spoilt(run, n + 1) <==> Spoils(s, run.ops[n]) || (t.leases == s.leases && Spoilt(run, n))
  {
    var s, t := run.states[n], run.states[n + 1];
    Leases(run, n, n + 1);
    forall k: nat | k < n ensures SpoiltBy(run, n + 1, k) <==> t.leases == s.leases && SpoiltBy(run, n, k) {
      Leases(run, k + 1, n);
    }
    assert SpoiltBy(run, n + 1, n) <==> Spoils(s, run.ops[n]);
    if t.leases == s.leases && Spoilt(run, n) {
      var k :| 0 <= k < n && SpoiltBy(run, n, k);
      assert SpoiltBy(run, n + 1, k);
    }
    if Spoilt(run, n + 1) {
      var k :| 0 <= k < n + 1 && SpoiltBy(run, n + 1, k);
      if k < n { assert SpoiltBy(run, n, k); }
    }
  }

  /** A flush that answers nil, or a Send that gets past its write, puts its block on the wire exactly if
      its lease is new or no earlier operation spoilt it; otherwise the rows are lost. */
  lemma IntactIff(run: Run, n: nat)
    requires IsRun(run) && n < |run.ops| && run.states[n].block != []
    requires (run.ops[n].OpFlush? && run.answers[n] == None) || Delivers(run.ops[n], run.answers[n])
    ensures var s := run.states[n];
      run.states[n + 1].wire == s.wire + [s.block] <==> s.released || !Spoilt(run, n)
  {
    var s, op := run.states[n], run.ops[n];
    assert IsStep(run, n);
    if !s.released { ReadyIff(run, n); }
    if op.OpFlush? { FlushedIntact(s, run.opt.closeOnFlush, op.net); } else { SentIntact(s, op.net); }
  }

  // ---------------------------------------------------------------- failed, live and sent batches

  lemma FailedStays(closeOnFlush: bool, s: State, op: Op)
    ensures var d := Step(closeOnFlush, s, op);
      s.failed ==> d.state.failed && d.state.wire == s.wire && d.state.stray == s.stray && !Delivers(op, d.answer)
    ensures var d := Step(closeOnFlush, s, op);
      (op.OpAppend? || op.OpColumnFailed?) && d.answer == Some(Invalid) ==>
        d.state.failed && d.state.wire == s.wire && d.state.stray == s.stray
  {
  }

  /** After a failed append nothing is delivered any more and nothing written. */
  lemma {:induction false} FailedForGood(run: Run, k: nat, n: nat)
    requires IsRun(run) && k < n <= |run.ops|
    requires (run.ops[k].OpAppend? || run.ops[k].OpColumnFailed?) && run.answers[k] == Some(Invalid)
    ensures var s, t := run.states[k], run.states[n]; t.failed && t.wire == s.wire && t.stray == s.stray
    ensures n < |run.ops| ==> !Delivers(run.ops[n], run.answers[n])
    decreases n
  {
    if k + 1 < n { FailedForGood(run, k, n - 1); }
    assert IsStep(run, n - 1);
    FailedStays(run.opt.closeOnFlush, run.states[n - 1], run.ops[n - 1]);
    if n < |run.ops| {
      assert IsStep(run, n);
      FailedStays(run.opt.closeOnFlush, run.states[n], run.ops[n]);
    }
  }

  /** Operations that end a batch. */
  predicate Ends(op: Op) {
    op.OpSend? || op.OpClose? || op.OpAbort? || op.OpColumnFailed? || (op.OpAppend? && !op.accepted)
  }

  lemma LiveStep(closeOnFlush: bool, s: State, op: Op)
    requires !s.sent && !s.failed
    ensures !Ends(op) ==> !Step(closeOnFlush, s, op).state.sent && !Step(closeOnFlush, s, op).state.failed
    ensures op.OpAppend? && op.accepted ==> Step(closeOnFlush, s, op).answer == None
  {
  }

  /** Up to the first of them every row that the columns take is taken. */
  lemma {:induction false} LiveAppend(run: Run, n: nat)
    requires IsRun(run) && n <= |run.ops| && forall k | 0 <= k < n :: !Ends(run.ops[k])
    ensures !run.states[n].sent && !run.states[n].failed
    ensures n < |run.ops| && run.ops[n].OpAppend? && run.ops[n].accepted ==> run.answers[n] == None
  {
    if n > 0 {
      LiveAppend(run, n - 1);
      assert IsStep(run, n - 1);
      LiveStep(run.opt.closeOnFlush, run.states[n - 1], run.ops[n - 1]);
    }
    if n < |run.ops| {
      assert IsStep(run, n);
      LiveStep(run.opt.closeOnFlush, run.states[n], run.ops[n]);
    }
  }

  /** What sending a block puts on the wire: nothing when it has no rows. */
  function Pieces(block: seq<Row>): seq<seq<Row>> {
    if block == [] then [] else [block]
  }

  lemma SentStays(closeOnFlush: bool, s: State, op: Op)
    ensures var d := Step(closeOnFlush, s, op);
      s.sent && s.released && !s.failed ==>
        && d.state.sent && d.state.released && d.state.block == s.block && !d.state.failed
        && (Delivers(op, d.answer) ==> d.state.wire == s.wire + Pieces(s.block))
    ensures var d := Step(closeOnFlush, s, op);
      Delivers(op, d.answer) ==> d.state.sent && d.state.released && d.state.block == s.block && !d.state.failed
  {
    assert s.wire + [] == s.wire;
  }

  /** Once sent, the last block stays buffered, and every further Send that gets past its write puts it on
      the wire again. */
  lemma {:induction false} SentAgain(run: Run, k: nat, n: nat)
    requires IsRun(run) && k < n <= |run.ops| && Delivers(run.ops[k], run.answers[k])
    ensures var t := run.states[n]; t.sent && t.released && t.block == run.states[k].block && !t.failed
    ensures n < |run.ops| && Delivers(run.ops[n], run.answers[n]) ==>
      run.states[n + 1].wire == run.states[n].wire + Pieces(run.states[k].block)
    decreases n
  {
    if k + 1 < n { SentAgain(run, k, n - 1); }
    assert IsStep(run, n - 1);
    SentStays(run.opt.closeOnFlush, run.states[n - 1], run.ops[n - 1]);
    if n < |run.ops| {
      assert IsStep(run, n);
      SentStays(run.opt.closeOnFlush, run.states[n], run.ops[n]);
    }
  }

  // ---------------------------------------------------------------- after Close, Abort and Send

  lemma SentReleasedStep(closeOnFlush: bool, s: State, op: Op)
    requires s.sent || s.failed ==> s.released
    ensures var t := Step(closeOnFlush, s, op).state; t.sent || t.failed ==> t.released
  {
  }

  /** A batch that was sent or has failed holds no lease. */
  lemma {:induction false} SentReleased(run: Run, n: nat)
    requires IsRun(run) && n <= |run.ops|
    ensures run.states[n].sent || run.states[n].failed ==> run.states[n].released
  {
    if n > 0 {
      SentReleased(run, n - 1);
      assert IsStep(run, n - 1);
      SentReleasedStep(run.opt.closeOnFlush, run.states[n - 1], run.ops[n - 1]);
    }
  }

  lemma DoneStays(closeOnFlush: bool, s: State, op: Op)
    requires s.sent
    ensures var d := Step(closeOnFlush, s, op);
      && d.state.sent
      && (op.OpAppend? || op.OpFlush? || op.OpColumnFailed? || op.OpAbort? ==> d.answer == Some(AlreadySent))
  {
  }

  /** Once a batch is done, it stays so: every later append, flush and abort is answered with that. */
  lemma {:induction false} DoneForGood(run: Run, k: nat, n: nat)
    requires IsRun(run) && k <= n <= |run.ops| && run.states[k].sent
    ensures run.states[n].sent
    ensures n < |run.ops| && (run.ops[n].OpAppend? || run.ops[n].OpFlush? || run.ops[n].OpAbort?) ==>
      run.answers[n] == Some(AlreadySent)
    decreases n
  {
    if k < n {
      DoneForGood(run, k, n - 1);
      assert IsStep(run, n - 1);
      DoneStays(run.opt.closeOnFlush, run.states[n - 1], run.ops[n - 1]);
    }
    if n < |run.ops| {
      assert IsStep(run, n);
      DoneStays(run.opt.closeOnFlush, run.states[n], run.ops[n]);
    }
  }

  /** Nothing is put on the wire and no row is dropped. */
  predicate SameBlocks(s: State, t: State) {
    t.block == s.block && t.wire == s.wire && t.stray == s.stray && t.failed == s.failed
  }

  /** Close gives the lease back and writes nothing. On a batch that holds a lease it ends the batch, and
      answers nil exactly if the connection is open and the INSERT could be closed; otherwise it does
      nothing. */
  lemma AfterClose(run: Run, n: nat)
    requires IsRun(run) && n < |run.ops| && run.ops[n].OpClose?
    ensures var s, t := run.states[n], run.states[n + 1];
      && t.released && SameBlocks(s, t)
      && (s.released ==> t == s && run.answers[n] == None)
      && (!s.released ==> t.sent && (run.answers[n] == None <==> !s.link.Shut? && run.ops[n].net.closed))
  {
    SentReleased(run, n);
    assert IsStep(run, n);
  }

  /** Abort ends the batch, gives the lease back and writes nothing. */
  lemma AfterAbort(run: Run, n: nat)
    requires IsRun(run) && n < |run.ops| && run.ops[n].OpAbort?
    ensures var s, t := run.states[n], run.states[n + 1];
      t.released && t.sent && SameBlocks(s, t) && run.answers[n] == if s.sent then Some(AlreadySent) else None
  {
    assert IsStep(run, n);
  }

  /** Asking for a column that is not there gives the lease back and changes nothing else. */
  lemma AfterBadColumn(run: Run, n: nat)
    requires IsRun(run) && n < |run.ops| && run.ops[n].OpColumnOutOfRange?
    ensures run.states[n + 1] == run.states[n].(released := true) && run.answers[n] == Some(BadColumn)
  {
    assert IsStep(run, n);
  }

  // ---------------------------------------------------------------- what Flush and Send answer

  /** There is a lease to write on, whose INSERT was accepted. */
  predicate Leased(s: State, net: Net) {
    s.released ==> net.acquired && net.accepted
  }

  /** The block can be written: there are rows, the connection is not known to be shut, and the write works. */
  predicate Writes(s: State, net: Net) {
    s.block != [] ==> (s.released || !s.link.Shut?) && net.write.Wrote?
  }

  /** What a flush answers, by the batch and the network: nil exactly if the batch is live, there is a lease
      and the rows, if any, can be written. Then the lease is given back exactly with `closeOnFlush`. */
  lemma FlushAnswers(s: State, closeOnFlush: bool, net: Net)
    ensures var d := Flushed(s, closeOnFlush, net);
      && (d.answer == None <==> !s.sent && !s.failed && Leased(s, net) && Writes(s, net))
      && (d.answer == Some(AlreadySent) <==> s.sent)
      && (d.answer == Some(Invalid) <==> !s.sent && s.failed)
      && (d.answer == Some(NoConnection) <==> !s.sent && !s.failed && s.released && !net.acquired)
      && (d.answer == Some(QueryRefused) <==> !s.sent && !s.failed && s.released && net.acquired && !net.accepted)
      && (d.answer == Some(WriteFailed) <==> !s.sent && !s.failed && Leased(s, net) && !Writes(s, net))
      && (d.answer == None ==> (d.state.released <==> closeOnFlush && s.block != []))
      && d.state.leases == s.leases + if !s.sent && !s.failed && s.released && net.acquired then 1 else 0
  {
  }

  /** What a Send answers: nil exactly if the batch has not failed, there is a lease, the rows, if any, can be
      written, and the INSERT can be closed. */
  lemma SendAnswers(s: State, net: Net)
    ensures var d := Sent(s, net); var closes := (s.released || !s.link.Shut?) && net.closed;
      && (d.answer == None <==> !s.failed && Leased(s, net) && Writes(s, net) && closes)
      && (d.answer == Some(CloseFailed) <==> !s.failed && Leased(s, net) && Writes(s, net) && !closes)
      && (d.answer == Some(WriteFailed) <==> !s.failed && Leased(s, net) && !Writes(s, net))
      && (d.answer == Some(Invalid) <==> s.failed)
      && (d.answer == Some(NoConnection) <==> !s.failed && s.released && !net.acquired)
      && (d.answer == Some(QueryRefused) <==> !s.failed && s.released && net.acquired && !net.accepted)
      && d.state.sent && d.state.released && d.state.block == s.block
      && d.state.leases == s.leases + if !s.failed && s.released && net.acquired then 1 else 0
  {
  }

  // ---------------------------------------------------------------- runs that show it

  /** Everything goes well but `closed`. */
  function Fine(closed: bool): Net {
    Net(true, true, Wrote, false, closed)
  }

  /** Two sends of one row, the first failing at its end or not: the row arrives twice. */
  method SentTwice(row: Row, closed: bool) returns (first: Outcome, second: Outcome, wire: seq<seq<Row>>)
    ensures first == (if closed then None else Some(CloseFailed)) && second == None && wire == [[row], [row]]
  {
    var b := new Batch(Options(false, false));
    var _ := b.Append(row, true, []);
    assert b.block == [row];
    first := b.Send(Fine(closed));
    assert b.wire == [[row]];
    second := b.Send(Fine(true));
    wire := b.wire;
  }

  /** A flush fails and leaves the connection open; the second one answers nil, and the row is lost. */
  method FlushedAfterFailure(row: Row)
      returns (first: Outcome, second: Outcome, wire: seq<seq<Row>>, stray: seq<seq<Row>>)
    ensures first == Some(WriteFailed) && second == None && wire == [] && stray == [[row]]
  {
    var b := new Batch(Options(false, false));
    var _ := b.Append(row, true, []);
    assert b.block == [row];
    first := b.Flush(Net(true, true, FailedOpen, false, true));
    second := b.Flush(Fine(true));
    wire, stray := b.wire, b.stray;
  }

  /** A flush with `closeOnFlush` answers nil whenever a Send would have got past its write: what closing
      the INSERT answers is dropped. */
  lemma CloseErrorDropped(s: State, net: Net)
    requires !s.sent && !s.failed && s.block != []
    ensures var f, d := Flushed(s, true, net), Sent(s, net);
      && (f.answer == None <==> PastWrite(d.answer))
      && (f.answer == None ==> f.state.wire == d.state.wire && f.state.stray == d.state.stray && f.state.released)
  {
  }

  /** Closing the INSERT fails: the flush answers nil, and gives its lease back all the same. */
  method FlushedUnclosed(row: Row) returns (r: Outcome, wire: seq<seq<Row>>, released: bool)
    ensures r == None && wire == [[row]] && released
  {
    var b := new Batch(Options(true, false));
    var _ := b.Append(row, true, []);
    assert b.block == [row];
    r := b.Flush(Fine(false));
    wire, released := b.wire, b.released;
  }

  // ---------------------------------------------------------------- the connection under a batch

  /** A block as `sendData` encodes it: the packet header, and the block's header and columns, each of which
      may fail to encode. */
  datatype Packet = Packet(packet: Bytes, header: Option<Bytes>, columns: seq<Option<Bytes>>)

  /** The chunks make up the whole block. */
  ghost predicate Carries(block: Packet, chunks: seq<Bytes>) {
    && block.header.Some? && Conn.AllEncoded(block.columns)
    && Concat(chunks) == Conn.Payload(block.header.value, block.columns)
  }

  /** How a `sendData` ends, by its error. */
  function WriteOf(r: Option<Conn.SendError>): Write {
    if r == None then Wrote else if Conn.LeavesOpen(r) then FailedOpen else FailedShut
  }

  /** The connection is in the state of the link: marked closed if shut; with nothing but whole packets
      written and nothing buffered if ready; with more bytes than those, written or buffered, if astray. */
  ghost predicate Linked(conn: Conn.Connect, link: Link, whole: Bytes)
    reads conn
  {
    && (conn.closed <==> link.Shut?)
    && (link.Ready? ==> conn.wire == whole && conn.buffer == [])
    && (link.Astray? ==> |conn.wire| + |conn.buffer| > |whole|)
  }

  /** Sending a block on the connection, by the chunks of its fragmentation: how that ends decides the next
      link, and the whole packets grow by this one exactly if the link was ready and stays so. */
  method SendBlock(conn: Conn.Connect, link: Link, block: Packet, works: nat -> bool, short: nat -> Option<nat>,
                   ghost whole: Bytes)
      returns (r: Option<Conn.SendError>, next: Link, ghost whole': Bytes, ghost chunks: seq<Bytes>)
    requires Conn.Sound(conn.codec) && block.packet != [] && Linked(conn, link, whole)
    modifies conn
    ensures link.Shut? ==> r == Some(Conn.Closed)
    ensures !link.Shut? ==> r == old(Conn.Fate(conn.codec.Some?, conn.limit, |conn.buffer| + |block.packet|,
                                               block.header, block.columns, works, short))
    ensures next == NextLink(link, WriteOf(r)) && Linked(conn, next, whole')
    ensures whole' == if r == None && link.Ready? then whole + block.packet + Conn.Frames(conn.codec, chunks) else whole
    ensures r == None ==> Carries(block, chunks)
  {
    ghost var n, cuts;
    ghost var before := conn.wire + conn.buffer;
    r, chunks, n, cuts := conn.SendData(block.packet, block.header, block.columns, works, short);
    next := NextLink(link, WriteOf(r));
    whole' := whole;
    if r == None {
      assert block.columns[..n] == block.columns;
      if link.Ready? {
        assert before == whole;
        whole' := whole + block.packet + Conn.Frames(conn.codec, chunks);
      }
    }
  }

  // ---------------------------------------------------------------- making a batch

  /** What `PrepareBatch` meets: a connection, an INSERT that parses, a server that takes it and sends the
      first block, columns that can be sorted. */
  datatype Setup = Setup(acquired: bool, parsed: bool, queried: bool, answered: bool, sorted: bool)

  predicate Succeeds(setup: Setup) {
    setup.acquired && setup.parsed && setup.queried && setup.answered && setup.sorted
  }

  /** A lease that is outstanding and that no batch will ever give back. */
  ghost predicate Lost(leased: seq<Lease>, returned: seq<Lease>, b: Batch?)
    reads b
  {
    exists l :: l in leased && l !in returned && (b == null || b.released || b.conn != l)
  }

  /** A lease is lost exactly if the INSERT does not parse. */
  method PrepareBatch(opt: Options, setup: Setup) returns (b: Batch?, leased: seq<Lease>, returned: seq<Lease>)
    ensures leased == if setup.acquired then [1] else []
    ensures b != null <==> Succeeds(setup)
    ensures b != null ==> fresh(b) && b.Valid() && b.View() == Start(opt) && b.returned == returned
    ensures Lost(leased, returned, b) <==> setup.acquired && !setup.parsed
  {
    b, leased, returned := null, [], [];
    if setup.acquired {
      leased := [1];
      b, returned := Prepare(opt, setup, 1);
      if !setup.parsed { assert 1 in leased && 1 !in returned; }
    }
  }

  /** `prepareBatch` on the connection of a lease. */
  method Prepare(opt: Options, setup: Setup, conn: Lease) returns (b: Batch?, returned: seq<Lease>)
    requires conn == 1 && setup.acquired
    ensures b != null <==> Succeeds(setup)
    ensures b != null ==> fresh(b) && b.Valid() && b.View() == Start(opt) && b.returned == returned && b.conn == conn
    ensures b != null ==> returned == if opt.releaseConnection then [conn] else []
    ensures b == null ==> returned == if setup.parsed then [conn] else []
  {
    if !setup.parsed { return null, []; }
    if !setup.queried { return null, [conn]; }
    if !setup.answered { return null, [conn]; }
    if !setup.sorted { return null, [conn]; }
    b := new Batch(opt);
    returned := b.returned;
  }
}
