/** The idle pool (conn_pool.go) and the client over it (clickhouse.go), whose callers' steps interleave. */
module ConnPool {
  import opened Base
  import opened Circular

  /** A connection by its dial number; the numbering starts at 1 and 0 is the nil transport. */
  type Conn = nat
  const NIL: Conn := 0

  // ---------------------------------------------------------------- the idle pool

  datatype Got = Found(conn: Conn) | Empty | Cancelled

  /** The loop of `Get` on the idle sequence: what it returns, what stays, what it closes.
      Cancellation and expiry are asked anew on every turn. */
  function GetLoop(idle: seq<Conn>, turn: nat, cancelled: nat -> bool, expired: (nat, Conn) -> bool)
      : (r: (Got, seq<Conn>, seq<Conn>))
    decreases |idle|
  {
    if cancelled(turn) then (Cancelled, idle, [])
    else if idle == [] then (Empty, [], [])
    else if !expired(turn, idle[0]) then (Found(idle[0]), idle[1..], [])
    else
      var (got, rest, shut) := GetLoop(idle[1..], turn + 1, cancelled, expired);
      (got, rest, [idle[0]] + shut)
  }

  /** Going on from here, with `shut` already closed, gives the whole result. */
  ghost predicate GetFrom(idle: seq<Conn>, turn: nat, cancelled: nat -> bool, expired: (nat, Conn) -> bool,
                          shut: seq<Conn>, whole: (Got, seq<Conn>, seq<Conn>)) {
    var (got, rest, more) := GetLoop(idle, turn, cancelled, expired);
    whole == (got, rest, shut + more)
  }

  lemma GetTurn(idle: seq<Conn>, turn: nat, cancelled: nat -> bool, expired: (nat, Conn) -> bool,
                shut: seq<Conn>, whole: (Got, seq<Conn>, seq<Conn>))
    requires idle != [] && !cancelled(turn) && expired(turn, idle[0])
    requires GetFrom(idle, turn, cancelled, expired, shut, whole)
    ensures GetFrom(idle[1..], turn + 1, cancelled, expired, shut + [idle[0]], whole)
  {
    var (_, _, more) := GetLoop(idle[1..], turn + 1, cancelled, expired);
    assert shut + ([idle[0]] + more) == (shut + [idle[0]]) + more;
  }

  /** What a get means: it hands out the first connection that has not expired on its turn, closes all before
      it, which have, and leaves the rest in order; it stops early exactly when it is cancelled. */
  ghost predicate GetMeans(idle: seq<Conn>, turn: nat, cancelled: nat -> bool, expired: (nat, Conn) -> bool,
                           got: Got, rest: seq<Conn>, shut: seq<Conn>) {
    && (forall i | 0 <= i < |shut| :: expired(turn + i, shut[i]) && !cancelled(turn + i))
    && (got.Cancelled? <==> cancelled(turn + |shut|))
    && match got
       case Found(conn) => idle == shut + [conn] + rest && !expired(turn + |shut|, conn)
       case Empty => idle == shut && rest == []
       case Cancelled => idle == shut + rest
  }

  lemma {:induction false} GetLoopMeans(idle: seq<Conn>, turn: nat, cancelled: nat -> bool,
                                        expired: (nat, Conn) -> bool)
    ensures var (got, rest, shut) := GetLoop(idle, turn, cancelled, expired);
      GetMeans(idle, turn, cancelled, expired, got, rest, shut)
    decreases |idle|
  {
    if !cancelled(turn) && idle != [] {
      if expired(turn, idle[0]) {
        GetLoopMeans(idle[1..], turn + 1, cancelled, expired);
        var (got, rest, more) := GetLoop(idle[1..], turn + 1, cancelled, expired);
        GetMeansOn(idle, turn, cancelled, expired, got, rest, more);
      } else {
        assert idle == [] + [idle[0]] + idle[1..];
      }
    }
  }

  lemma GetMeansOn(idle: seq<Conn>, turn: nat, cancelled: nat -> bool, expired: (nat, Conn) -> bool,
                   got: Got, rest: seq<Conn>, more: seq<Conn>)
    requires idle != [] && !cancelled(turn) && expired(turn, idle[0])
    requires GetMeans(idle[1..], turn + 1, cancelled, expired, got, rest, more)
    ensures GetMeans(idle, turn, cancelled, expired, got, rest, [idle[0]] + more)
  {
    var shut := [idle[0]] + more;
    assert idle == [idle[0]] + idle[1..];
    forall i | 0 <= i < |shut| ensures expired(turn + i, shut[i]) && !cancelled(turn + i) {
      if i > 0 { assert shut[i] == more[i - 1] && turn + 1 + (i - 1) == turn + i; }
    }
    assert turn + |shut| == turn + 1 + |more|;
    match got {
      case Found(conn) => assert shut + [conn] + rest == [idle[0]] + (more + [conn] + rest);
      case Empty => assert shut == [idle[0]] + more;
      case Cancelled => assert shut + rest == [idle[0]] + (more + rest);
    }
    assert forall i | 0 <= i < |shut| :: expired(turn + i, shut[i]) && !cancelled(turn + i);
  }

  /** `Put` on the idle sequence: what stays and what is closed. */
  function PutSpec(idle: seq<Conn>, capacity: nat, conn: Conn, expired: bool, healthy: bool): (seq<Conn>, seq<Conn>) {
    if expired || !healthy || |idle| >= capacity then (idle, [conn]) else (idle + [conn], [])
  }

  class IdlePool {
    const conns: Queue<Conn>

    ghost predicate Valid()
      reads this, conns, conns.data
    {
      conns.Valid()
    }

    ghost function Idle(): seq<Conn>
      requires Valid()
      reads this, conns, conns.data
    {
      conns.Contents()
    }

    constructor (capacity: nat)
      ensures Valid() && fresh(conns) && fresh(conns.data)
      ensures Idle() == [] && conns.data.Length == capacity
    {
      conns := new Queue<Conn>(capacity, NIL);
    }

    method Get(cancelled: nat -> bool, expired: (nat, Conn) -> bool) returns (got: Got, shut: seq<Conn>)
      requires Valid()
      modifies conns, conns.data
      ensures Valid() && (got, Idle(), shut) == GetLoop(old(Idle()), 0, cancelled, expired)
      ensures GetMeans(old(Idle()), 0, cancelled, expired, got, Idle(), shut)
    {
      GetLoopMeans(Idle(), 0, cancelled, expired);
      shut := [];
      var turn := 0;
      ghost var whole := GetLoop(Idle(), 0, cancelled, expired);
      assert [] + whole.2 == whole.2;
      while true
        invariant Valid() && GetFrom(Idle(), turn, cancelled, expired, shut, whole)
        decreases |Idle()|
      {
        if cancelled(turn) {
          assert shut + [] == shut;
          return Cancelled, shut;
        }
        ghost var s := Idle();
        var conn, ok := conns.Pull();
        if !ok {
          assert shut + [] == shut;
          return Empty, shut;
        }
        assert Idle() == s[1..] && conn == s[0];
        if !expired(turn, conn) {
          assert shut + [] == shut;
          return Found(conn), shut;
        }
        GetTurn(s, turn, cancelled, expired, shut, whole);
        shut := shut + [conn];
        turn := turn + 1;
      }
    }

    method Put(conn: Conn, expired: bool, healthy: bool) returns (shut: seq<Conn>)
      requires Valid()
      modifies conns, conns.data
      ensures Valid() && (Idle(), shut) == PutSpec(old(Idle()), conns.data.Length, conn, expired, healthy)
      ensures expired || !healthy ==> Idle() == old(Idle()) && shut == [conn]
      ensures !expired && healthy && |old(Idle())| < conns.data.Length ==> Idle() == old(Idle()) + [conn] && shut == []
      ensures |old(Idle())| == conns.data.Length ==> Idle() == old(Idle()) && shut == [conn]
    {
      if expired || !healthy { return [conn]; }
      var ok := conns.Push(conn);
      shut := if ok then [] else [conn];
    }

    /** Removes the expired connections; the loop body that closes them never stops early. */
    method Drain(expired: (nat, Conn) -> bool) returns (shut: seq<Conn>)
      requires Valid()
      modifies conns, conns.data
      ensures Valid() && Idle() == Kept(old(Idle()), expired) && shut == Removed(old(Idle()), expired)
    {
      shut := conns.DeleteFunc(expired, (_: seq<Conn>) => true);
      YieldedPrefix(Removed(old(Idle()), expired), (_: seq<Conn>) => true);
    }
  }

  // ---------------------------------------------------------------- acquire and release

  /** Where one caller stands between asking for a connection and having returned it. */
  datatype Phase =
    | Away                    // holds nothing
    | HasToken                // sent to `open`
    | FromIdle(conn: Conn)    // pulled an idle connection, health not checked yet
    | Dialing                 // no idle connection was usable
    | Failing                 // an error is being returned, the token not yet taken back
    | Borrowed(conn: Conn)
    | Releasing(conn: Conn)   // flagged as released, the token not yet taken back
    | Returning(conn: Conn)   // on its way into the idle pool

  /** 1 for a caller that has a token in `open`, else 0. */
  function Token(p: Phase): nat {
    if p.Away? || p.Returning? then 0 else 1
  }

  predicate HasConn(p: Phase) {
    p.FromIdle? || p.Borrowed? || p.Releasing? || p.Returning?
  }

  predicate Holds(p: Phase, x: Conn) {
    HasConn(p) && p.conn == x
  }

  datatype Client = Client(
    maxOpen: nat,
    idleCap: nat,
    open: nat,              // tokens in the channel
    idle: seq<Conn>,
    released: set<Conn>,    // connections whose `released` flag is set
    shut: seq<Conn>,        // connections closed so far
    dialled: nat,           // number of the last dialled connection
    callers: seq<Phase>)

  datatype Step =
    | TakeToken(a: nat)
    | GetIdle(a: nat, cancelled: nat -> bool, expired: (nat, Conn) -> bool)
    | CheckHealth(a: nat, healthy: bool)
    | Dial(a: nat, ok: bool)
    | GiveUp(a: nat)
    | ReleaseFlag(a: nat)
    | ReleaseToken(a: nat)
    | PutBack(a: nat, failed: bool, stale: bool, healthy: bool)
    | DrainIdle(gone: (nat, Conn) -> bool)

  /** What a caller's step does: its new phase and the new shared state; `shut` lists what it closes. */
  datatype Move = Move(to: Phase, idle: seq<Conn>, shut: seq<Conn>, open: nat, released: set<Conn>, dialled: nat)

  function Only(c: Client, to: Phase): Move {
    Move(to, c.idle, [], c.open, c.released, c.dialled)
  }

  /** The step of a caller in phase `p`, or None when it is not the caller's turn for it. */
  function Plan(c: Client, p: Phase, step: Step): Option<Move> {
    match step
    case TakeToken(_) =>
      if p.Away? && c.open < c.maxOpen then Some(Only(c, HasToken).(open := c.open + 1)) else None
    case GetIdle(_, cancelled, expired) =>
      if p.HasToken? then Some(PlanGet(c, cancelled, expired)) else None
    case CheckHealth(_, healthy) =>
      if !p.FromIdle? then None
      else if healthy then Some(Only(c, Borrowed(p.conn)).(released := c.released - {p.conn}))
      else Some(Only(c, Dialing).(shut := [p.conn]))
    case Dial(_, ok) =>
      if !p.Dialing? then None
      else if ok then Some(Only(c, Borrowed(c.dialled + 1)).(dialled := c.dialled + 1))
      else Some(Only(c, Failing))
    case GiveUp(_) =>
      if p.Failing? then Some(Only(c, Away).(open := TakeBack(c.open))) else None
    case ReleaseFlag(_) =>
      if !p.Borrowed? then None
      else if p.conn in c.released then Some(Only(c, Away)) // already released: nothing is returned
      else Some(Only(c, Releasing(p.conn)).(released := c.released + {p.conn}))
    case ReleaseToken(_) =>
      if p.Releasing? then Some(Only(c, Returning(p.conn)).(open := TakeBack(c.open))) else None
    case PutBack(_, failed, stale, healthy) =>
      if !p.Returning? then None
      else if failed then Some(Only(c, Away).(shut := [p.conn]))
      else
        var (idle, shut) := PutSpec(c.idle, c.idleCap, p.conn, stale, healthy);
        Some(Only(c, Away).(idle := idle, shut := shut))
    case DrainIdle(_) => None
  }

  function PlanGet(c: Client, cancelled: nat -> bool, expired: (nat, Conn) -> bool): Move {
    var (got, idle, shut) := GetLoop(c.idle, 0, cancelled, expired);
    var to := match got case Found(conn) => FromIdle(conn) case Empty => Dialing case Cancelled => Failing;
    Only(c, to).(idle := idle, shut := shut)
  }

  function Enter(c: Client, a: nat, m: Move): Client
    requires a < |c.callers|
  {
    c.(callers := c.callers[a := m.to], idle := m.idle, shut := c.shut + m.shut,
       open := m.open, released := m.released, dialled := m.dialled)
  }

  /** One atomic step of the whole client, or None when it is not enabled. */
  function Next(c: Client, step: Step): Option<Client> {
    if step.DrainIdle? then
      Some(c.(idle := Kept(c.idle, step.gone), shut := c.shut + Removed(c.idle, step.gone)))
    else if step.a < |c.callers| then
      match Plan(c, c.callers[step.a], step)
      case None => None
      case Some(m) => Some(Enter(c, step.a, m))
    else None
  }

  /** The non-blocking receive from `open`. */
  function TakeBack(open: nat): nat {
    if open == 0 then 0 else open - 1
  }

  // ---------------------------------------------------------------- the invariant

  ghost function Tokens(callers: seq<Phase>): nat {
    if callers == [] then 0 else Token(callers[0]) + Tokens(callers[1..])
  }

  /** How many callers hold connection `x`. */
  ghost function InHand(callers: seq<Phase>, x: Conn): nat {
    if callers == [] then 0 else (if Holds(callers[0], x) then 1 else 0) + InHand(callers[1..], x)
  }

  ghost function Times(s: seq<Conn>, x: Conn): nat {
    multiset(s)[x]
  }

  /** In how many places connection `x` is. */
  ghost function Places(c: Client, x: Conn): nat {
    Times(c.idle, x) + InHand(c.callers, x) + Times(c.shut, x)
  }

  /** The flag a connection must carry in each phase: clear exactly while it is borrowed. */
  ghost predicate FlagOk(released: set<Conn>, p: Phase) {
    match p
    case Borrowed(conn) => conn !in released
    case FromIdle(conn) => conn in released
    case Releasing(conn) => conn in released
    case Returning(conn) => conn in released
    case _ => true
  }

  ghost predicate Flags(released: set<Conn>, callers: seq<Phase>) {
    forall a | 0 <= a < |callers| :: FlagOk(released, callers[a])
  }

  ghost predicate AllIn(idle: seq<Conn>, released: set<Conn>) {
    forall x | x in idle :: x in released
  }

  /** Only a connection that exists can be flagged. */
  ghost predicate NoneAbove(released: set<Conn>, dialled: nat) {
    forall x | x in released :: x <= dialled
  }

  /** Tokens count the loans and the acquisitions in flight; every dialled connection is in
      exactly one place; the idle queue is within its capacity; the flags tell loans apart. */
  ghost predicate Inv(c: Client) {
    && c.open == Tokens(c.callers) <= c.maxOpen
    && |c.idle| <= c.idleCap
    && (forall x: Conn :: Places(c, x) == if 1 <= x <= c.dialled then 1 else 0)
    && AllIn(c.idle, c.released)
    && Flags(c.released, c.callers)
    && NoneAbove(c.released, c.dialled)
  }

  ghost predicate Fresh(c: Client) {
    && c.open == 0 && c.idle == [] && c.released == {} && c.shut == [] && c.dialled == 0
    && forall a | 0 <= a < |c.callers| :: c.callers[a] == Away
  }

  // ---------------------------------------------------------------- counting lemmas

  lemma {:induction false} EnterTokens(callers: seq<Phase>, a: nat, p: Phase)
    requires a < |callers|
    ensures Tokens(callers[a := p]) + Token(callers[a]) == Tokens(callers) + Token(p)
  {
    var after := callers[a := p];
    if a == 0 {
      assert after[1..] == callers[1..];
    } else {
      EnterTokens(callers[1..], a - 1, p);
      assert after[1..] == callers[1..][a - 1 := p];
    }
  }

  lemma {:induction false} EnterHand(callers: seq<Phase>, a: nat, p: Phase, x: Conn)
    requires a < |callers|
    ensures InHand(callers[a := p], x) + (if Holds(callers[a], x) then 1 else 0)
         == InHand(callers, x) + (if Holds(p, x) then 1 else 0)
  {
    var after := callers[a := p];
    if a == 0 {
      assert after[1..] == callers[1..];
    } else {
      EnterHand(callers[1..], a - 1, p, x);
      assert after[1..] == callers[1..][a - 1 := p];
    }
  }

  lemma {:induction false} HandHas(callers: seq<Phase>, a: nat, x: Conn)
    requires a < |callers| && Holds(callers[a], x)
    ensures InHand(callers, x) >= 1 && Tokens(callers) >= Token(callers[a])
  {
    if a > 0 { HandHas(callers[1..], a - 1, x); }
  }

  lemma {:induction false} TokensHas(callers: seq<Phase>, a: nat)
    requires a < |callers|
    ensures Tokens(callers) >= Token(callers[a])
  {
    if a > 0 { TokensHas(callers[1..], a - 1); }
  }

  lemma {:induction false} TwoHands(callers: seq<Phase>, a: nat, b: nat, x: Conn)
    requires a < b < |callers| && Holds(callers[a], x) && Holds(callers[b], x)
    ensures InHand(callers, x) >= 2
  {
    if a == 0 { HandHas(callers[1..], b - 1, x); } else { TwoHands(callers[1..], a - 1, b - 1, x); }
  }

  lemma {:induction false} SomeHand(callers: seq<Phase>, x: Conn) returns (a: nat)
    requires InHand(callers, x) >= 1
    ensures a < |callers| && Holds(callers[a], x)
  {
    if Holds(callers[0], x) { return 0; }
    a := SomeHand(callers[1..], x);
    a := a + 1;
  }

  lemma {:induction false} AllAway(callers: seq<Phase>, x: Conn)
    requires forall a | 0 <= a < |callers| :: callers[a] == Away
    ensures Tokens(callers) == 0 && InHand(callers, x) == 0
  {
    if callers != [] { AllAway(callers[1..], x); }
  }

  lemma {:induction false} GetLoopSplits(idle: seq<Conn>, turn: nat, cancelled: nat -> bool,
                                         expired: (nat, Conn) -> bool, x: Conn)
    ensures var (got, rest, shut) := GetLoop(idle, turn, cancelled, expired);
      && Times(idle, x) == (if got == Found(x) then 1 else 0) + Times(rest, x) + Times(shut, x)
      && |rest| <= |idle|
  {
    if idle != [] {
      assert idle == [idle[0]] + idle[1..];
      GetLoopSplits(idle[1..], turn + 1, cancelled, expired, x);
      var (_, _, shut) := GetLoop(idle[1..], turn + 1, cancelled, expired);
      assert Times([idle[0]] + shut, x) == Times([idle[0]], x) + Times(shut, x);
    }
  }

  // ---------------------------------------------------------------- every step keeps the invariant

  /** A move leaves `x` in as many places as before, plus one if it has just been dialled. */
  ghost predicate BalancedAt(c: Client, p: Phase, m: Move, x: Conn) {
    Times(m.idle, x) + (if Holds(m.to, x) then 1 else 0) + Times(m.shut, x)
    == Times(c.idle, x) + (if Holds(p, x) then 1 else 0) + (if c.dialled < x <= m.dialled then 1 else 0)
  }

  /** A move settles its token, stays within the idle capacity and changes only its own flag. */
  ghost predicate Sound(c: Client, p: Phase, m: Move) {
    && c.dialled <= m.dialled
    && m.open + Token(p) == c.open + Token(m.to) && m.open <= c.maxOpen
    && |m.idle| <= c.idleCap
    && FlagOk(m.released, m.to)
    && AllIn(m.idle, m.released)
    && NoneAbove(m.released, m.dialled)
    && (forall x | !Holds(p, x) :: x in m.released <==> x in c.released)
  }

  lemma GetBalanced(c: Client, cancelled: nat -> bool, expired: (nat, Conn) -> bool, x: Conn)
    ensures BalancedAt(c, HasToken, PlanGet(c, cancelled, expired), x)
  {
    GetLoopSplits(c.idle, 0, cancelled, expired, x);
  }

  lemma GetSound(c: Client, cancelled: nat -> bool, expired: (nat, Conn) -> bool)
    requires |c.idle| <= c.idleCap && c.open <= c.maxOpen
    requires AllIn(c.idle, c.released) && NoneAbove(c.released, c.dialled)
    ensures Sound(c, HasToken, PlanGet(c, cancelled, expired))
  {
    var m := PlanGet(c, cancelled, expired);
    GetLoopSplits(c.idle, 0, cancelled, expired, 0);
    forall x | x in m.idle || Holds(m.to, x) ensures x in c.idle {
      GetLoopSplits(c.idle, 0, cancelled, expired, x);
      assert Times(m.idle, x) > 0 || Holds(m.to, x);
      assert Times(c.idle, x) > 0;
    }
  }

  lemma PutBalanced(c: Client, p: Phase, step: Step, x: Conn)
    requires step.PutBack? && Plan(c, p, step).Some?
    ensures BalancedAt(c, p, Plan(c, p, step).value, x)
  {
  }

  lemma CheckBalanced(c: Client, p: Phase, step: Step, x: Conn)
    requires step.CheckHealth? && Plan(c, p, step).Some?
    ensures BalancedAt(c, p, Plan(c, p, step).value, x)
  {
  }

  lemma DialBalanced(c: Client, p: Phase, step: Step, x: Conn)
    requires step.Dial? && Plan(c, p, step).Some?
    ensures BalancedAt(c, p, Plan(c, p, step).value, x)
  {
  }

  lemma ReleaseBalanced(c: Client, p: Phase, step: Step, x: Conn)
    requires (step.ReleaseFlag? || step.ReleaseToken?) && Plan(c, p, step).Some? && FlagOk(c.released, p)
    ensures BalancedAt(c, p, Plan(c, p, step).value, x)
  {
  }

  /** Every step a caller can take accounts for every connection. */
  lemma PlanBalanced(c: Client, p: Phase, step: Step, x: Conn)
    requires Plan(c, p, step).Some? && FlagOk(c.released, p)
    ensures BalancedAt(c, p, Plan(c, p, step).value, x)
  {
    match step
    case GetIdle(_, cancelled, expired) => GetBalanced(c, cancelled, expired, x);
    case PutBack(_, _, _, _) => PutBalanced(c, p, step, x);
    case CheckHealth(_, _) => CheckBalanced(c, p, step, x);
    case Dial(_, _) => DialBalanced(c, p, step, x);
    case ReleaseFlag(_) => ReleaseBalanced(c, p, step, x);
    case ReleaseToken(_) => ReleaseBalanced(c, p, step, x);
    case TakeToken(_) =>
    case GiveUp(_) =>
  }

  lemma PlanSound(c: Client, p: Phase, step: Step)
    requires Plan(c, p, step).Some? && FlagOk(c.released, p)
    requires |c.idle| <= c.idleCap && Token(p) <= c.open <= c.maxOpen
    requires AllIn(c.idle, c.released) && NoneAbove(c.released, c.dialled)
    requires forall x: Conn | Holds(p, x) :: x <= c.dialled
    requires forall x | Holds(p, x) :: x !in c.idle
    ensures Sound(c, p, Plan(c, p, step).value)
  {
    if HasConn(p) { assert Holds(p, p.conn); }
    if step.GetIdle? { GetSound(c, step.cancelled, step.expired); }
  }

  /** A caller's connection is neither idle nor closed nor in another caller's hands. */
  lemma HeldAlone(c: Client, a: nat, x: Conn)
    requires Inv(c) && a < |c.callers| && Holds(c.callers[a], x)
    ensures x !in c.idle && x !in c.shut && x <= c.dialled
    ensures forall b | 0 <= b < |c.callers| && b != a :: !Holds(c.callers[b], x)
  {
    HandHas(c.callers, a, x);
    assert Places(c, x) <= 1;
    assert Times(c.idle, x) == 0 && Times(c.shut, x) == 0;
    forall b | 0 <= b < |c.callers| && Holds(c.callers[b], x) ensures b == a {
      if a < b { TwoHands(c.callers, a, b, x); } else if b < a { TwoHands(c.callers, b, a, x); }
    }
  }

  /** A balanced move adds a newly dialled connection to the ledger and nothing else. */
  lemma MovePlaces(c: Client, a: nat, m: Move, x: Conn)
    requires a < |c.callers| && BalancedAt(c, c.callers[a], m, x)
    ensures Places(Enter(c, a, m), x) == Places(c, x) + if c.dialled < x <= m.dialled then 1 else 0
  {
    EnterHand(c.callers, a, m.to, x);
    assert Times(c.shut + m.shut, x) == Times(c.shut, x) + Times(m.shut, x);
  }

  /** A sound move leaves every caller's flag right. */
  lemma MoveFlags(c: Client, a: nat, m: Move)
    requires Inv(c) && a < |c.callers| && Sound(c, c.callers[a], m)
    ensures Flags(m.released, c.callers[a := m.to])
  {
    forall b | 0 <= b < |c.callers| && b != a ensures FlagOk(m.released, c.callers[b]) {
      assert FlagOk(c.released, c.callers[b]);
      forall x | Holds(c.callers[b], x) ensures x in m.released <==> x in c.released {
        HeldAlone(c, b, x);
      }
      if HasConn(c.callers[b]) { assert Holds(c.callers[b], c.callers[b].conn); }
    }
  }

  lemma CallerInv(c: Client, a: nat, step: Step)
    requires Inv(c) && a < |c.callers| && Plan(c, c.callers[a], step).Some?
    ensures Inv(Enter(c, a, Plan(c, c.callers[a], step).value))
  {
    var p := c.callers[a];
    var m := Plan(c, p, step).value;
    assert FlagOk(c.released, p);
    TokensHas(c.callers, a);
    forall x: Conn | Holds(p, x) ensures x !in c.idle && x <= c.dialled { HeldAlone(c, a, x); }
    PlanSound(c, p, step);
    EnterTokens(c.callers, a, m.to);
    MoveFlags(c, a, m);
    forall x: Conn ensures Places(Enter(c, a, m), x) == if 1 <= x <= m.dialled then 1 else 0 {
      PlanBalanced(c, p, step, x);
      MovePlaces(c, a, m, x);
    }
  }

  /** The expiry drain only moves connections from idle to closed. */
  lemma DrainInv(c: Client, gone: (nat, Conn) -> bool)
    requires Inv(c)
    ensures Inv(c.(idle := Kept(c.idle, gone), shut := c.shut + Removed(c.idle, gone)))
  {
    var d := c.(idle := Kept(c.idle, gone), shut := c.shut + Removed(c.idle, gone));
    Partition(c.idle, gone);
    forall x: Conn ensures Places(d, x) == Places(c, x) && (x in d.idle ==> x in c.idle) {
      assert Times(c.idle, x) == Times(d.idle, x) + Times(Removed(c.idle, gone), x);
      assert Times(d.shut, x) == Times(c.shut, x) + Times(Removed(c.idle, gone), x);
    }
  }

  /** Every step keeps the invariant. */
  lemma StepInv(c: Client, step: Step, d: Client)
    requires Inv(c) && Next(c, step) == Some(d)
    ensures Inv(d) && d.maxOpen == c.maxOpen && d.idleCap == c.idleCap
  {
    if step.DrainIdle? { DrainInv(c, step.gone); } else { CallerInv(c, step.a, step); }
  }

  // ---------------------------------------------------------------- every run is safe

  /** The state after a run of steps; steps that are not enabled are skipped. */
  function Run(c: Client, steps: seq<Step>): Client
    decreases steps
  {
    if steps == [] then c
    else Run(if Next(c, steps[0]).Some? then Next(c, steps[0]).value else c, steps[1..])
  }

  lemma {:induction false} RunInv(c: Client, steps: seq<Step>)
    requires Inv(c)
    ensures Inv(Run(c, steps)) && Run(c, steps).maxOpen == c.maxOpen && Run(c, steps).idleCap == c.idleCap
    decreases steps
  {
    if steps != [] {
      var next := Next(c, steps[0]);
      if next.Some? {
        StepInv(c, steps[0], next.value);
        RunInv(next.value, steps[1..]);
      } else {
        RunInv(c, steps[1..]);
      }
    }
  }

  lemma FreshInv(c: Client)
    requires Fresh(c)
    ensures Inv(c)
  {
    AllAway(c.callers, NIL);
    forall x: Conn ensures Places(c, x) == 0 { AllAway(c.callers, x); }
  }

  /** From the start of the client, after any interleaving: the limit holds, the idle queue is
      bounded and free of duplicates, no connection is in two places and none is lost. */
  lemma Safe(c: Client, steps: seq<Step>, x: Conn)
    requires Fresh(c)
    ensures var d := Run(c, steps);
      && d.open == Tokens(d.callers) <= c.maxOpen
      && |d.idle| <= c.idleCap
      && Times(d.idle, x) <= 1
      && (forall a | 0 <= a < |d.callers| && Holds(d.callers[a], x) ::
            x !in d.idle && x !in d.shut && forall b | 0 <= b < |d.callers| && b != a :: !Holds(d.callers[b], x))
      && (1 <= x <= d.dialled ==>
          x in d.idle || x in d.shut || exists a :: 0 <= a < |d.callers| && Holds(d.callers[a], x))
  {
    FreshInv(c);
    RunInv(c, steps);
    var d := Run(c, steps);
    assert Places(d, x) <= 1;
    forall a | 0 <= a < |d.callers| && Holds(d.callers[a], x)
      ensures x !in d.idle && x !in d.shut && forall b | 0 <= b < |d.callers| && b != a :: !Holds(d.callers[b], x)
    {
      HeldAlone(d, a, x);
    }
    if 1 <= x <= d.dialled && x !in d.idle && x !in d.shut {
      assert Times(d.idle, x) == 0 && Times(d.shut, x) == 0;
      var a := SomeHand(d.callers, x);
    }
  }

  // ---------------------------------------------------------------- where connections come from

  /** The state after the first `n` steps. */
  function At(c: Client, steps: seq<Step>, n: nat): Client
    requires n <= |steps|
  {
    Run(c, steps[..n])
  }

  function After(c: Client, step: Step): Client {
    if Next(c, step).Some? then Next(c, step).value else c
  }

  lemma {:induction false} RunSnoc(c: Client, steps: seq<Step>, step: Step)
    ensures Run(c, steps + [step]) == After(Run(c, steps), step)
    decreases steps
  {
    if steps == [] {
      assert (steps + [step])[1..] == [] && (steps + [step])[0] == step;
    } else {
      assert (steps + [step])[1..] == steps[1..] + [step] && (steps + [step])[0] == steps[0];
      RunSnoc(After(c, steps[0]), steps[1..], step);
    }
  }

  lemma AtNext(c: Client, steps: seq<Step>, n: nat)
    requires n < |steps|
    ensures At(c, steps, n + 1) == After(At(c, steps, n), steps[n])
  {
    assert steps[..n + 1] == steps[..n] + [steps[n]];
    RunSnoc(c, steps[..n], steps[n]);
  }

  /** The step gives back connection `x`, which neither failed nor expired and is healthy. */
  ghost predicate ReturnsGood(c: Client, step: Step, x: Conn) {
    && step.PutBack? && !step.failed && !step.stale && step.healthy
    && step.a < |c.callers| && c.callers[step.a] == Returning(x)
  }

  lemma IdleStep(c: Client, step: Step, x: Conn)
    requires x in After(c, step).idle && x !in c.idle
    ensures ReturnsGood(c, step, x)
  {
    match step
    case GetIdle(_, cancelled, expired) => GetLoopMeans(c.idle, 0, cancelled, expired);
    case DrainIdle(gone) => KeptOnly(c.idle, gone, x);
    case _ =>
  }

  lemma KeptOnly(idle: seq<Conn>, gone: (nat, Conn) -> bool, x: Conn)
    ensures x in Kept(idle, gone) ==> x in idle
  {
    var at := KeptInOrder(idle, gone);
    if x in Kept(idle, gone) {
      var i :| 0 <= i < |Kept(idle, gone)| && Kept(idle, gone)[i] == x;
      assert idle[at[i]] == x;
    }
  }

  /** Every idle connection was given back by a caller whose use of it did not fail, unexpired and healthy. */
  lemma {:induction false} IdleSound(c: Client, steps: seq<Step>, n: nat, x: Conn) returns (k: nat)
    requires c.idle == [] && n <= |steps|
    ensures x in At(c, steps, n).idle ==> k < n && ReturnsGood(At(c, steps, k), steps[k], x)
  {
    k := 0;
    assert steps[..0] == [];
    if n > 0 {
      AtNext(c, steps, n - 1);
      k := IdleSound(c, steps, n - 1, x);
      if x in At(c, steps, n).idle && x !in At(c, steps, n - 1).idle {
        k := n - 1;
        IdleStep(At(c, steps, k), steps[k], x);
      }
    }
  }

  /** The step lends `x` to caller `a`: an idle connection that the health check passed, or a new one. */
  ghost predicate Lends(c: Client, step: Step, a: nat, x: Conn)
    requires a < |c.callers|
  {
    || (step == CheckHealth(a, true) && c.callers[a] == FromIdle(x))
    || (step == Dial(a, true) && c.callers[a] == Dialing && x == c.dialled + 1)
  }

  lemma LendStep(c: Client, step: Step, a: nat, x: Conn)
    requires a < |c.callers|
    requires After(c, step).callers[a] == Borrowed(x) && c.callers[a] != Borrowed(x)
    ensures Lends(c, step, a, x)
  {
    assert Next(c, step).Some? && !step.DrainIdle? && step.a == a;
    LendPlan(c, c.callers[a], step, x);
  }

  lemma LendPlan(c: Client, p: Phase, step: Step, x: Conn)
    requires Plan(c, p, step).Some? && Plan(c, p, step).value.to == Borrowed(x)
    ensures
      || (step.CheckHealth? && step.healthy && p == FromIdle(x))
      || (step.Dial? && step.ok && p == Dialing && x == c.dialled + 1)
  {
  }

  /** Every connection a caller has borrowed was lent to it so. */
  lemma {:induction false} LentSound(c: Client, steps: seq<Step>, n: nat, a: nat, x: Conn) returns (k: nat)
    requires n <= |steps| && a < |c.callers| && c.callers[a] == Away
    ensures a < |At(c, steps, n).callers|
    ensures At(c, steps, n).callers[a] == Borrowed(x) ==>
      k < n && a < |At(c, steps, k).callers| && Lends(At(c, steps, k), steps[k], a, x)
  {
    k := 0;
    assert steps[..0] == [];
    if n > 0 {
      AtNext(c, steps, n - 1);
      k := LentSound(c, steps, n - 1, a, x);
      if At(c, steps, n).callers[a] == Borrowed(x) && At(c, steps, n - 1).callers[a] != Borrowed(x) {
        k := n - 1;
        LendStep(At(c, steps, k), steps[k], a, x);
      }
    }
  }

  /** A connection that a get hands out had not expired on its turn, and was the first such. */
  lemma HandedOut(c: Client, step: Step, x: Conn)
    requires step.GetIdle? && step.a < |c.callers| && c.callers[step.a].HasToken?
    requires After(c, step).callers[step.a] == FromIdle(x)
    ensures exists shut: seq<Conn> {:trigger |shut|} ::
      && c.idle == shut + [x] + After(c, step).idle && !step.expired(|shut|, x)
      && After(c, step).shut == c.shut + shut && forall i | 0 <= i < |shut| :: step.expired(i, shut[i])
  {
    GetLoopMeans(c.idle, 0, step.cancelled, step.expired);
    var (got, rest, shut) := GetLoop(c.idle, 0, step.cancelled, step.expired);
    assert |shut| >= 0;
  }

  /** What is not fit to be idle is closed: a connection given back after a failure, expired or not healthy,
      or to a full pool, and an idle one that fails the health check. */
  lemma UnfitClosed(c: Client, step: Step)
    requires step.PutBack? || (step.CheckHealth? && !step.healthy)
    requires step.a < |c.callers| && Next(c, step).Some?
    ensures var p, d := c.callers[step.a], Next(c, step).value;
      && HasConn(p)
      && (step.CheckHealth? || step.failed || step.stale || !step.healthy || |c.idle| >= c.idleCap ==>
          d.idle == c.idle && d.shut == c.shut + [p.conn])
      && (step.PutBack? && !step.failed && !step.stale && step.healthy && |c.idle| < c.idleCap ==>
          d.idle == c.idle + [p.conn] && d.shut == c.shut)
  {
    assert c.shut + [] == c.shut;
  }

  // ---------------------------------------------------------------- leases that are never given back

  lemma {:induction false} TokensAtLeast(callers: seq<Phase>, stuck: set<nat>)
    requires forall a | a in stuck :: a < |callers| && Token(callers[a]) == 1
    ensures Tokens(callers) >= |stuck|
    decreases |stuck|
  {
    if stuck != {} {
      var a :| a in stuck;
      EnterTokens(callers, a, Away);
      TokensAtLeast(callers[a := Away], stuck - {a});
    }
  }

  ghost predicate Idles(steps: seq<Step>, stuck: set<nat>) {
    forall i | 0 <= i < |steps| :: !steps[i].DrainIdle? ==> steps[i].a !in stuck
  }

  /** Whoever takes no step stays where they are. */
  lemma {:induction false} StandStill(c: Client, steps: seq<Step>, stuck: set<nat>)
    requires Idles(steps, stuck) && forall a | a in stuck :: a < |c.callers|
    ensures var d := Run(c, steps); forall a | a in stuck :: a < |d.callers| && d.callers[a] == c.callers[a]
    decreases steps
  {
    if steps != [] {
      assert !steps[0].DrainIdle? ==> steps[0].a !in stuck;
      var next := Next(c, steps[0]);
      StandStill(if next.Some? then next.value else c, steps[1..], stuck);
    }
  }

  /** Once as many callers as the limit hold a connection and never release it, nobody acquires one any
      more, whatever the others do and whatever is drained. */
  lemma Exhausted(c: Client, before: seq<Step>, after: seq<Step>, stuck: set<nat>, b: nat)
    requires Fresh(c) && |stuck| == c.maxOpen && Idles(after, stuck)
    requires var d := Run(c, before); forall a | a in stuck :: a < |d.callers| && d.callers[a].Borrowed?
    ensures var e := Run(Run(c, before), after); e.open == c.maxOpen && Next(e, TakeToken(b)) == None
  {
    FreshInv(c);
    RunInv(c, before);
    var d := Run(c, before);
    RunInv(d, after);
    StandStill(d, after, stuck);
    TokensAtLeast(Run(d, after).callers, stuck);
  }
}
