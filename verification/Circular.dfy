/** The bounded FIFO over a circular array (internal/circular/queue.go). The array is
    specified through its rotation to the head, so that wrap-around disappears. */
module Circular {

  // ---------------------------------------------------------------- specification

  /** `a` read from index `h` round to just before it. */
  function Rotated<T>(a: seq<T>, h: nat): (r: seq<T>)
    requires h <= |a|
    ensures |r| == |a|
  {
    a[h..] + a[..h]
  }

  /** The array index of position `k` behind the head. */
  function Slot(h: nat, cap: nat, k: nat): nat {
    if h + k < cap then h + k else h + k - cap
  }

  /** What a pass over `s` keeps. The test sees the position too, since a clock may move meanwhile. */
  function Kept<T>(s: seq<T>, gone: (nat, T) -> bool): (r: seq<T>)
    ensures |r| <= |s|
  {
    if s == [] then []
    else
      var n := |s| - 1;
      Kept(s[..n], gone) + if gone(n, s[n]) then [] else [s[n]]
  }

  /** What a pass over `s` takes out. */
  function Removed<T>(s: seq<T>, gone: (nat, T) -> bool): (r: seq<T>)
    ensures |r| <= |s|
  {
    if s == [] then []
    else
      var n := |s| - 1;
      Removed(s[..n], gone) + if gone(n, s[n]) then [s[n]] else []
  }

  /** What a consumer that asks to go on or stop after each element gets to see of `r`. */
  function Yielded<T>(r: seq<T>, more: seq<T> -> bool): (y: seq<T>)
    ensures |y| <= |r|
  {
    if r == [] then []
    else
      var n := |r| - 1;
      var y := Yielded(r[..n], more);
      if |y| == n && (n == 0 || more(y)) then r else y
  }

  /** It is a prefix: all of `r`, or up to and including the first element after which the consumer stopped. */
  lemma {:induction false} YieldedPrefix<T>(r: seq<T>, more: seq<T> -> bool)
    ensures var y := Yielded(r, more);
      && y <= r
      && (y != r ==> y != [] && !more(y))
      && (forall k | 0 < k < |y| :: more(y[..k]))
  {
    if r != [] {
      var n := |r| - 1;
      var z := Yielded(r[..n], more);
      YieldedPrefix(r[..n], more);
      if z == r[..n] && (n == 0 || more(z)) {
        forall k | 0 < k < |r| ensures more(r[..k]) {
          assert r[..k] == r[..n][..k];
        }
      }
    }
  }

  /** Keeping and removing split the contents: nothing is lost, nothing is duplicated. */
  lemma {:induction false} Partition<T>(s: seq<T>, gone: (nat, T) -> bool)
    ensures multiset(Kept(s, gone)) + multiset(Removed(s, gone)) == multiset(s)
  {
    if s != [] {
      var n := |s| - 1;
      Partition(s[..n], gone);
      assert s == s[..n] + [s[n]];
      PartitionSnoc(s[..n], s[n], Kept(s[..n], gone), Removed(s[..n], gone), gone(n, s[n]));
    }
  }

  lemma PartitionSnoc<T>(s: seq<T>, x: T, kept: seq<T>, removed: seq<T>, goes: bool)
    requires multiset(kept) + multiset(removed) == multiset(s)
    ensures multiset(kept + if goes then [] else [x]) + multiset(removed + if goes then [x] else []) ==
      multiset(s + [x])
  {
  }

  /** The positions, in order, of elements of `s`. */
  ghost predicate Positions<T>(s: seq<T>, at: seq<nat>, r: seq<T>) {
    && |at| == |r| && (forall i | 0 <= i < |at| :: at[i] < |s| && s[at[i]] == r[i])
    && (forall i, j | 0 <= i < j < |at| :: at[i] < at[j])
  }

  lemma PositionsGrow<T>(s: seq<T>, x: T, at: seq<nat>, r: seq<T>)
    requires Positions(s, at, r)
    ensures Positions(s + [x], at, r) && Positions(s + [x], at + [|s|], r + [x])
  {
  }

  /** They are those of the elements that do not pass the test. */
  ghost predicate Stays<T>(s: seq<T>, at: seq<nat>, gone: (nat, T) -> bool) {
    forall p: nat | p < |s| :: p in at <==> !gone(p, s[p])
  }

  lemma StaysGrow<T>(s: seq<T>, x: T, at: seq<nat>, gone: (nat, T) -> bool)
    requires Stays(s, at, gone) && |s| !in at
    ensures Stays(s + [x], if gone(|s|, x) then at else at + [|s|], gone)
  {
    forall p: nat | p < |s| ensures (s + [x])[p] == s[p] {}
  }

  lemma KeptSnoc<T>(s: seq<T>, x: T, gone: (nat, T) -> bool)
    ensures Kept(s + [x], gone) == Kept(s, gone) + if gone(|s|, x) then [] else [x]
  {
    assert (s + [x])[..|s|] == s;
  }

  lemma InOrderSnoc<T>(s: seq<T>, x: T, gone: (nat, T) -> bool, at: seq<nat>) returns (at': seq<nat>)
    requires Positions(s, at, Kept(s, gone)) && Stays(s, at, gone)
    ensures Positions(s + [x], at', Kept(s + [x], gone)) && Stays(s + [x], at', gone)
  {
    PositionsGrow(s, x, at, Kept(s, gone));
    StaysGrow(s, x, at, gone);
    KeptSnoc(s, x, gone);
    if gone(|s|, x) {
      assert Kept(s, gone) + [] == Kept(s, gone);
      at' := at;
    } else {
      at' := at + [|s|];
    }
  }

  /** Exactly the elements that do not pass the test stay, and they stay in order. */
  lemma {:induction false} KeptInOrder<T>(s: seq<T>, gone: (nat, T) -> bool) returns (at: seq<nat>)
    ensures Positions(s, at, Kept(s, gone)) && Stays(s, at, gone)
  {
    if s == [] { return []; }
    var front, x := s[..|s| - 1], s[|s| - 1];
    at := KeptInOrder(front, gone);
    at := InOrderSnoc(front, x, gone, at);
    assert s == front + [x];
  }

  /** What goes is what would stay under the opposite test, and so goes in order too. */
  lemma {:induction false} RemovedInOrder<T>(s: seq<T>, gone: (nat, T) -> bool)
    ensures Removed(s, gone) == Kept(s, (i, x) => !gone(i, x))
  {
    if s != [] { RemovedInOrder(s[..|s| - 1], gone); }
  }

  /** With a test of the value alone, exactly the passing elements go. */
  lemma {:induction false} KeptFilters<T>(s: seq<T>, gone: T -> bool)
    ensures forall x | x in Kept(s, (_, y) => gone(y)) :: x in s && !gone(x)
    ensures forall x | x in Removed(s, (_, y) => gone(y)) :: x in s && gone(x)
    ensures (forall x | x in s :: !gone(x)) ==> Kept(s, (_, y) => gone(y)) == s
  {
    if s != [] {
      var n := |s| - 1;
      KeptFilters(s[..n], gone);
      assert s == s[..n] + [s[n]];
    }
  }

  // ---------------------------------------------------------------- the queue

  class Queue<T> {
    const zero: T
    const data: array<T>
    var head: nat
    var tail: nat
    var len: nat

    /** The whole array read from the head; the first `len` entries are the contents. */
    ghost var view: seq<T>

    ghost predicate Tied()
      reads this, data
    {
      head <= data.Length && (data.Length > 0 ==> head < data.Length) && view == Rotated(data[..], head)
    }

    ghost predicate Valid()
      reads this, data
    {
      && Tied()
      && len <= data.Length == |view|
      && tail == (if data.Length == 0 then 0 else Slot(head, data.Length, len))
      && (forall k | len <= k < |view| :: view[k] == zero)
    }

    ghost function Contents(): (s: seq<T>)
      requires len <= |view|
      reads this
    {
      view[..len]
    }

    constructor (capacity: nat, zero: T)
      ensures Valid() && fresh(data) && this.zero == zero
      ensures data.Length == capacity && Contents() == []
    {
      this.zero := zero;
      data := new T[capacity](_ => zero);
      head, tail, len := 0, 0, 0;
      new;
      view := data[..];
    }

    function Next(index: nat): nat
      reads this
    {
      if index + 1 >= data.Length then 0 else index + 1
    }

    /** Reads the slot at offset `k` behind the head. */
    method Load(at: nat, ghost k: nat) returns (v: T)
      requires Tied() && k < data.Length && at == Slot(head, data.Length, k)
      ensures k < |view| && v == view[k]
    {
      v := data[at];
    }

    /** Writes the slot at offset `k` behind the head. */
    method Store(at: nat, ghost k: nat, v: T)
      requires Tied() && k < data.Length && at == Slot(head, data.Length, k)
      modifies this`view, data
      ensures Tied() && k < |old(view)| && view == old(view)[k := v]
    {
      ghost var a := data[..];
      data[at] := v;
      assert data[..] == a[at := v];
      view := view[k := v];
    }

    method Push(value: T) returns (ok: bool)
      requires Valid()
      modifies this`tail, this`len, this`view, data
      ensures Valid() && ok == (|old(Contents())| < data.Length)
      ensures Contents() == if ok then old(Contents()) + [value] else old(Contents())
    {
      if len == data.Length { return false; }
      Store(tail, len, value);
      tail := Next(tail);
      len := len + 1;
      ok := true;
    }

    method Pull() returns (value: T, ok: bool)
      requires Valid()
      modifies this`head, this`len, this`view, data
      ensures Valid() && ok == (old(Contents()) != [])
      ensures ok ==> [value] + Contents() == old(Contents())
      ensures !ok ==> value == zero && Contents() == []
    {
      if len == 0 { return zero, false; }
      value := Load(head, 0);
      Store(head, 0, zero);
      Advance();
      len := len - 1;
      ok := true;
    }

    /** Moves the head one slot on, which turns the view by one. */
    method Advance()
      requires Tied() && data.Length > 0
      modifies this`head, this`view
      ensures Tied() && head == old(Next(head)) && view == old(view[1..] + [view[0]])
    {
      view := view[1..] + [view[0]];
      head := Next(head);
    }

    /** One survivor: moved up to offset `n` unless it already stands there. */
    method Keep(to: nat, from: nat, value: T, ghost was: seq<T>, ghost s: seq<T>, ghost gone: (nat, T) -> bool,
                ghost n: nat, ghost i: nat)
      requires Tied() && Compacted(view, was, s, gone, zero, n, i)
      requires to == Slot(head, data.Length, n) && from == Slot(head, data.Length, i)
      requires i < |s| && value == view[i] && !gone(i, value)
      modifies this`view, data
      ensures Tied() && Compacted(view, was, s, gone, zero, n + 1, i + 1)
    {
      KeepStep(view, was, s, gone, zero, n, i);
      if from != to {
        Store(to, n, value);
        Store(from, i, zero);
      }
    }

    /** One element taken out: its slot is zeroed. */
    method Drop(at: nat, ghost was: seq<T>, ghost s: seq<T>, ghost gone: (nat, T) -> bool, ghost n: nat, ghost i: nat)
      requires Tied() && Compacted(view, was, s, gone, zero, n, i)
      requires at == Slot(head, data.Length, i) && i < |s| && gone(i, view[i])
      modifies this`view, data
      ensures Tied() && Compacted(view, was, s, gone, zero, n, i + 1)
    {
      DropStep(view, was, s, gone, zero, n, i);
      Store(at, i, zero);
    }

    /** Compacts in place: survivors move towards the head, every vacated slot is zeroed. */
    method DeleteFunc(gone: (nat, T) -> bool, more: seq<T> -> bool) returns (yielded: seq<T>)
      requires Valid()
      modifies this`tail, this`len, this`view, data
      ensures Valid()
      ensures Contents() == Kept(old(Contents()), gone)
      ensures yielded == Yielded(Removed(old(Contents()), gone), more)
    {
      if len == 0 { return []; }
      ghost var s, was := Contents(), view;
      var newTail, newLen;
      newTail, newLen, yielded := Compact(was, s, gone, more);
      CompactedEnd(view, was, s, gone, zero, newLen);
      tail, len := newTail, newLen;
    }

    /** The loop of `DeleteFunc`. */
    method Compact(ghost was: seq<T>, ghost s: seq<T>, gone: (nat, T) -> bool, more: seq<T> -> bool)
        returns (newTail: nat, newLen: nat, yielded: seq<T>)
      requires Tied() && 0 < len == |s| && Compacted(view, was, s, gone, zero, 0, 0)
      modifies this`view, data
      ensures Tied() && newLen <= data.Length && newTail == Slot(head, data.Length, newLen)
      ensures Compacted(view, was, s, gone, zero, newLen, len)
      ensures yielded == Yielded(Removed(s, gone), more)
    {
      var current, stop, i := head, false, 0;
      newTail, newLen, yielded := head, 0, [];
      while i < len
        invariant Tied() && i <= len
        invariant current == Slot(head, data.Length, i) && newTail == Slot(head, data.Length, newLen)
        invariant Compacted(view, was, s, gone, zero, newLen, i)
        invariant Told(Removed(s[..i], gone), more, yielded, stop)
      {
        newTail, newLen, yielded, stop := Visit(current, newTail, was, s, gone, newLen, i, more, yielded, stop);
        current := Next(current);
        i := i + 1;
      }
      assert s[..i] == s;
    }

    /** One turn of the loop of `DeleteFunc`. */
    method Visit(current: nat, newTail: nat, ghost was: seq<T>, ghost s: seq<T>, gone: (nat, T) -> bool,
                 newLen: nat, i: nat, more: seq<T> -> bool, yielded: seq<T>, stop: bool)
        returns (newTail': nat, newLen': nat, yielded': seq<T>, stop': bool)
      requires Tied() && i < |s| && Compacted(view, was, s, gone, zero, newLen, i)
      requires current == Slot(head, data.Length, i) && newTail == Slot(head, data.Length, newLen)
      requires Told(Removed(s[..i], gone), more, yielded, stop)
      modifies this`view, data
      ensures Tied() && newTail' == Slot(head, data.Length, newLen')
      ensures Compacted(view, was, s, gone, zero, newLen', i + 1)
      ensures Told(Removed(s[..i + 1], gone), more, yielded', stop')
    {
      newTail', newLen', yielded', stop' := newTail, newLen, yielded, stop;
      var value := Load(current, i);
      RemovedSnoc(s, i, gone);
      if !gone(i, value) {
        Keep(newTail, current, value, was, s, gone, newLen, i);
        newTail', newLen' := Next(newTail), newLen + 1;
      } else {
        Drop(current, was, s, gone, newLen, i);
        yielded', stop' := Tell(Removed(s[..i], gone), value, more, yielded, stop);
      }
    }

    method Clear(more: seq<T> -> bool) returns (yielded: seq<T>)
      requires Valid()
      modifies this, data
      ensures Valid() && Contents() == [] && yielded == Yielded(old(Contents()), more)
    {
      if len == 0 { return []; }
      yielded := Sweep(more);
      AllZero(data[..], head, zero);
      head, tail, len := 0, 0, 0;
      view := data[..];
    }

    /** The loop of `Clear`: zeroes the live slots in order. */
    method Sweep(more: seq<T> -> bool) returns (yielded: seq<T>)
      requires Valid() && len > 0
      modifies this`view, data
      ensures yielded == Yielded(old(Contents()), more)
      ensures Tied() && forall k | 0 <= k < |view| :: view[k] == zero
    {
      yielded := [];
      ghost var s := Contents();
      var current, stop, i := head, false, 0;
      while i < len
        invariant Tied() && 0 <= i <= len == |s| <= |view| == data.Length
        invariant current == Slot(head, data.Length, i)
        invariant forall k | 0 <= k < |view| :: view[k] == if i <= k < len then s[k] else zero
        invariant Told(s[..i], more, yielded, stop)
      {
        var value := Load(current, i);
        Store(current, i, zero);
        yielded, stop := Tell(s[..i], value, more, yielded, stop);
        assert s[..i] + [s[i]] == s[..i + 1];
        current := Next(current);
        i := i + 1;
      }
      assert s[..i] == s;
    }
  }

  /** The loop state of a pass: survivors, a zeroed gap, the untouched rest. */
  ghost predicate Compacted<T>(v: seq<T>, was: seq<T>, s: seq<T>, gone: (nat, T) -> bool, zero: T, n: nat, i: nat) {
    && n <= i <= |s| <= |v| == |was|
    && v[..n] == Kept(s[..i], gone)
    && (forall k | n <= k < i :: v[k] == zero)
    && (forall k | i <= k < |v| :: v[k] == was[k])
    && (forall k | 0 <= k < |was| :: was[k] == if k < |s| then s[k] else zero)
  }

  lemma KeepStep<T>(v: seq<T>, was: seq<T>, s: seq<T>, gone: (nat, T) -> bool, zero: T, n: nat, i: nat)
    requires Compacted(v, was, s, gone, zero, n, i) && i < |s| && !gone(i, s[i])
    ensures n == i ==> Compacted(v, was, s, gone, zero, n + 1, i + 1)
    ensures n < i ==> Compacted(v[n := v[i]][i := zero], was, s, gone, zero, n + 1, i + 1)
  {
    assert s[..i + 1][..i] == s[..i];
    var w := if n < i then v[n := v[i]][i := zero] else v;
    assert w[..n + 1] == v[..n] + [s[i]];
  }

  lemma DropStep<T>(v: seq<T>, was: seq<T>, s: seq<T>, gone: (nat, T) -> bool, zero: T, n: nat, i: nat)
    requires Compacted(v, was, s, gone, zero, n, i) && i < |s| && gone(i, s[i])
    ensures Compacted(v[i := zero], was, s, gone, zero, n, i + 1)
  {
    assert s[..i + 1][..i] == s[..i];
    assert v[i := zero][..n] == v[..n];
  }

  lemma CompactedEnd<T>(v: seq<T>, was: seq<T>, s: seq<T>, gone: (nat, T) -> bool, zero: T, n: nat)
    requires Compacted(v, was, s, gone, zero, n, |s|)
    ensures v[..n] == Kept(s, gone) && forall k | n <= k < |v| :: v[k] == zero
  {
    assert s[..|s|] == s;
  }

  lemma RemovedSnoc<T>(s: seq<T>, i: nat, gone: (nat, T) -> bool)
    requires i < |s|
    ensures Removed(s[..i + 1], gone) == if gone(i, s[i]) then Removed(s[..i], gone) + [s[i]] else Removed(s[..i], gone)
  {
    assert s[..i + 1][..i] == s[..i];
    var r := Removed(s[..i], gone);
    assert r + [] == r;
  }

  /** What the consumer has been told of `removed`, and whether it has asked to stop. */
  ghost predicate Told<T>(removed: seq<T>, more: seq<T> -> bool, yielded: seq<T>, stop: bool) {
    && yielded == Yielded(removed, more)
    && (stop <==> yielded != [] && !more(yielded))
  }

  /** Offers one more removed value to the consumer unless it has asked to stop. */
  method Tell<T>(ghost removed: seq<T>, value: T, more: seq<T> -> bool, yielded: seq<T>, stop: bool)
      returns (yielded': seq<T>, stop': bool)
    requires Told(removed, more, yielded, stop)
    ensures Told(removed + [value], more, yielded', stop')
  {
    ghost var r := removed + [value];
    assert r[..|r| - 1] == removed;
    YieldedPrefix(removed, more);
    yielded', stop' := yielded, stop;
    if !stop {
      yielded' := yielded + [value];
      stop' := !more(yielded');
    }
  }

  lemma AllZero<T>(a: seq<T>, h: nat, zero: T)
    requires h < |a| && forall k | 0 <= k < |a| :: Rotated(a, h)[k] == zero
    ensures forall k | 0 <= k < |a| :: a[k] == zero
  {
    forall k | 0 <= k < |a| ensures a[k] == zero {
      assert Rotated(a, h)[if k >= h then k - h else k + |a| - h] == a[k];
    }
  }

  // ---------------------------------------------------------------- whole runs

  datatype Op<!T> =
    | OpPush(value: T)
    | OpPull
    | OpDelete(gone: (nat, T) -> bool, more: seq<T> -> bool)
    | OpClear(more: seq<T> -> bool)

  datatype Reply<T> = Pushed(ok: bool) | Pulled(value: T, found: bool) | Gave(items: seq<T>)

  /** A bounded FIFO as a plain sequence: the next contents and the answer. */
  ghost function FifoStep<T>(capacity: nat, zero: T, s: seq<T>, op: Op<T>): (seq<T>, Reply<T>) {
    match op
    case OpPush(v) => if |s| < capacity then (s + [v], Pushed(true)) else (s, Pushed(false))
    case OpPull => if s == [] then (s, Pulled(zero, false)) else (s[1..], Pulled(s[0], true))
    case OpDelete(gone, more) => (Kept(s, gone), Gave(Yielded(Removed(s, gone), more)))
    case OpClear(more) => ([], Gave(Yielded(s, more)))
  }

  ghost function FifoRun<T>(capacity: nat, zero: T, s: seq<T>, ops: seq<Op<T>>): seq<Reply<T>>
    decreases ops
  {
    if ops == [] then []
    else
      var (next, reply) := FifoStep(capacity, zero, s, ops[0]);
      [reply] + FifoRun(capacity, zero, next, ops[1..])
  }

  /** Every run of the circular array answers as the bounded FIFO sequence does. */
  method RunQueue<T>(capacity: nat, zero: T, ops: seq<Op<T>>) returns (replies: seq<Reply<T>>)
    ensures replies == FifoRun(capacity, zero, [], ops)
  {
    var q := new Queue<T>(capacity, zero);
    replies := [];
    var i := 0;
    while i < |ops|
      invariant 0 <= i <= |ops| && q.Valid() && fresh(q) && fresh(q.data)
      invariant q.data.Length == capacity && q.zero == zero
      invariant replies + FifoRun(capacity, zero, q.Contents(), ops[i..]) == FifoRun(capacity, zero, [], ops)
    {
      ghost var s := q.Contents();
      var reply := Perform(q, ops[i]);
      assert ops[i..][1..] == ops[i + 1..];
      assert replies + ([reply] + FifoRun(capacity, zero, q.Contents(), ops[i + 1..]))
          == (replies + [reply]) + FifoRun(capacity, zero, q.Contents(), ops[i + 1..]);
      replies := replies + [reply];
      i := i + 1;
    }
  }

  method Perform<T>(q: Queue<T>, op: Op<T>) returns (reply: Reply<T>)
    requires q.Valid()
    modifies q, q.data
    ensures q.Valid() && (q.Contents(), reply) == FifoStep(q.data.Length, q.zero, old(q.Contents()), op)
  {
    match op
    case OpPush(v) =>
      var ok := q.Push(v);
      reply := Pushed(ok);
    case OpPull =>
      var v, ok := q.Pull();
      reply := Pulled(v, ok);
    case OpDelete(gone, more) =>
      var items := q.DeleteFunc(gone, more);
      reply := Gave(items);
    case OpClear(more) =>
      var items := q.Clear(more);
      reply := Gave(items);
  }

  // ---------------------------------------------------------------- first in, first out

  /** The values that were let in, and those that came out, of the first `n` operations. */
  ghost function In<T>(ops: seq<Op<T>>, replies: seq<Reply<T>>, n: nat): seq<T>
    requires n <= |ops| == |replies|
  {
    if n == 0 then []
    else
      In(ops, replies, n - 1) +
      if ops[n - 1].OpPush? && replies[n - 1] == Pushed(true) then [ops[n - 1].value] else []
  }

  ghost function Out<T>(replies: seq<Reply<T>>, n: nat): seq<T>
    requires n <= |replies|
  {
    if n == 0 then []
    else Out(replies, n - 1) + if replies[n - 1].Pulled? && replies[n - 1].found then [replies[n - 1].value] else []
  }

  ghost predicate PushPull<T>(ops: seq<Op<T>>) {
    forall i | 0 <= i < |ops| :: ops[i].OpPush? || ops[i].OpPull?
  }

  /** Contents and answers before and after each operation. */
  ghost function FifoAt<T>(capacity: nat, zero: T, ops: seq<Op<T>>, n: nat): seq<T>
    requires n <= |ops|
  {
    if n == 0 then [] else FifoStep(capacity, zero, FifoAt(capacity, zero, ops, n - 1), ops[n - 1]).0
  }

  lemma {:induction false} FifoRunAt<T>(capacity: nat, zero: T, s: seq<T>, ops: seq<Op<T>>, k: nat, n: nat)
    requires k <= n < |ops| && s == FifoAt(capacity, zero, ops, k)
    ensures |FifoRun(capacity, zero, s, ops[k..])| == |ops| - k
    ensures FifoRun(capacity, zero, s, ops[k..])[n - k] ==
      FifoStep(capacity, zero, FifoAt(capacity, zero, ops, n), ops[n]).1
    decreases |ops| - k
  {
    var next := FifoStep(capacity, zero, s, ops[k]).0;
    assert ops[k..][1..] == ops[k + 1..] && ops[k..][0] == ops[k];
    if k + 1 < |ops| {
      FifoRunAt(capacity, zero, next, ops, k + 1, if n == k then k + 1 else n);
    } else {
      assert ops[k + 1..] == [];
    }
  }

  lemma RunAt<T>(capacity: nat, zero: T, ops: seq<Op<T>>, replies: seq<Reply<T>>, n: nat)
    requires replies == FifoRun(capacity, zero, [], ops) && n < |ops|
    ensures |replies| == |ops| && replies[n] == FifoStep(capacity, zero, FifoAt(capacity, zero, ops, n), ops[n]).1
  {
    assert ops[0..] == ops;
    FifoRunAt(capacity, zero, [], ops, 0, n);
  }

  /** What went in is what came out and what is still there, in order. */
  lemma {:induction false} InOrder<T>(capacity: nat, zero: T, ops: seq<Op<T>>, replies: seq<Reply<T>>, n: nat)
    requires replies == FifoRun(capacity, zero, [], ops) && |replies| == |ops| && n <= |ops| && PushPull(ops)
    ensures In(ops, replies, n) == Out(replies, n) + FifoAt(capacity, zero, ops, n)
    ensures |FifoAt(capacity, zero, ops, n)| <= capacity
  {
    if n > 0 {
      InOrder(capacity, zero, ops, replies, n - 1);
      RunAt(capacity, zero, ops, replies, n - 1);
      assert ops[n - 1].OpPush? || ops[n - 1].OpPull?;
      OrderStep(capacity, zero, FifoAt(capacity, zero, ops, n - 1), ops[n - 1], In(ops, replies, n - 1),
                Out(replies, n - 1));
    }
  }

  lemma OrderStep<T>(capacity: nat, zero: T, s: seq<T>, op: Op<T>, ins: seq<T>, outs: seq<T>)
    requires (op.OpPush? || op.OpPull?) && ins == outs + s && |s| <= capacity
    ensures var (next, reply) := FifoStep(capacity, zero, s, op);
      && |next| <= capacity
      && ins + (if op.OpPush? && reply == Pushed(true) then [op.value] else []) ==
         outs + (if reply.Pulled? && reply.found then [reply.value] else []) + next
  {
  }

  /** Over any run of pushes and pulls: values come out in the order they went in, each once; a push is
      refused exactly if as many values as the capacity are inside; a pull finds one exactly if there is. */
  lemma FirstInFirstOut<T>(capacity: nat, zero: T, ops: seq<Op<T>>, replies: seq<Reply<T>>, n: nat)
    requires replies == FifoRun(capacity, zero, [], ops) && |replies| == |ops| && n < |ops| && PushPull(ops)
    ensures Out(replies, n) <= In(ops, replies, n)
    ensures var inside := |In(ops, replies, n)| - |Out(replies, n)|;
      && (ops[n].OpPush? ==> replies[n] == Pushed(inside < capacity))
      && (ops[n].OpPull? ==> replies[n].Pulled? && (replies[n].found <==> inside > 0))
      && (ops[n].OpPull? && inside > 0 ==> replies[n].value == In(ops, replies, n)[|Out(replies, n)|])
      && (ops[n].OpPull? && inside == 0 ==> replies[n].value == zero)
  {
    InOrder(capacity, zero, ops, replies, n);
    RunAt(capacity, zero, ops, replies, n);
    var ins, outs, s := In(ops, replies, n), Out(replies, n), FifoAt(capacity, zero, ops, n);
    assert s != [] ==> ins[|outs|] == s[0];
  }
}
