/** The key ring buffer of TegraKeyboardTextIn.c. */
module KeyQueue {
  import opened Wrappers

  type UInt16 = x: nat | x < 0x1_0000
  type UInt32 = x: nat | x < 0x1_0000_0000
  type UInt8 = x: nat | x < 0x100

  datatype KeyData = KeyData(scanCode: UInt16, unicodeChar: UInt16, shiftState: UInt32, toggleState: UInt8)

  const MAX_COUNT: nat := 256

  // ---------- The ring as a sequence ----------

  /** Pushing drops the oldest key, and only when 255 keys are waiting. */
  function Pushed(keys: seq<KeyData>, key: KeyData): seq<KeyData>
  {
    (if |keys| == MAX_COUNT - 1 then keys[1..] else keys) + [key]
  }

  function PushedAll(keys: seq<KeyData>, more: seq<KeyData>): seq<KeyData>
  {
    if more == [] then keys else Pushed(PushedAll(keys, more[..|more| - 1]), more[|more| - 1])
  }

  /** The newest 255 keys of a sequence. */
  function Newest(keys: seq<KeyData>): seq<KeyData>
  {
    if |keys| < MAX_COUNT then keys else keys[|keys| - (MAX_COUNT - 1)..]
  }

  lemma NewestOfPush(keys: seq<KeyData>, key: KeyData)
    ensures Newest(keys + [key]) == Pushed(Newest(keys), key)
  {
  }

  /** A run of pushes leaves the newest keys in order. */
  lemma {:induction false} PushedAllIsNewest(keys: seq<KeyData>, more: seq<KeyData>)
    requires |keys| < MAX_COUNT
    ensures PushedAll(keys, more) == Newest(keys + more)
  {
    if more == [] {
      assert keys + more == keys;
    } else {
      var init := more[..|more| - 1];
      PushedAllIsNewest(keys, init);
      NewestOfPush(keys + init, more[|more| - 1]);
      assert keys + more == (keys + init) + [more[|more| - 1]];
    }
  }

  lemma {:induction false} PushedAllOfConcat(keys: seq<KeyData>, a: seq<KeyData>, b: seq<KeyData>)
    ensures PushedAll(keys, a + b) == PushedAll(PushedAll(keys, a), b)
  {
    if b == [] {
      assert a + b == a;
    } else {
      assert (a + b)[..|a + b| - 1] == a + b[..|b| - 1];
      PushedAllOfConcat(keys, a, b[..|b| - 1]);
    }
  }

  // ---------- Runs of operations ----------

  datatype Operation = Push(key: KeyData) | Pop | Reset

  /** How a key leaves the queue: read by a pop, lost to a push, or discarded by a reset. */
  datatype Exit = Taken | Lost | Discarded

  datatype Departure = Departure(key: KeyData, exit: Exit)

  /** The waiting keys, and all departures so far. */
  datatype Run = Run(waiting: seq<KeyData>, gone: seq<Departure>)

  function AllLeave(keys: seq<KeyData>, exit: Exit): (gone: seq<Departure>)
    ensures |gone| == |keys|
  {
    seq(|keys|, i requires 0 <= i < |keys| => Departure(keys[i], exit))
  }

  function Step(run: Run, op: Operation): Run
  {
    match op
    case Push(key) =>
      var oldest := if |run.waiting| == MAX_COUNT - 1 then run.waiting[..1] else [];
      Run(Pushed(run.waiting, key), run.gone + AllLeave(oldest, Lost))
    case Pop =>
      var n := if run.waiting == [] then 0 else 1;
      Run(run.waiting[n..], run.gone + AllLeave(run.waiting[..n], Taken))
    case Reset => Run([], run.gone + AllLeave(run.waiting, Discarded))
  }

  function RunAll(ops: seq<Operation>): Run
  {
    if ops == [] then Run([], []) else Step(RunAll(ops[..|ops| - 1]), ops[|ops| - 1])
  }

  function PushedBy(op: Operation): seq<KeyData>
  {
    if op.Push? then [op.key] else []
  }

  function PushedKeys(ops: seq<Operation>): seq<KeyData>
  {
    if ops == [] then [] else PushedKeys(ops[..|ops| - 1]) + PushedBy(ops[|ops| - 1])
  }

  function KeysOf(gone: seq<Departure>): seq<KeyData>
  {
    seq(|gone|, i requires 0 <= i < |gone| => gone[i].key)
  }

  /** When the first `n` waiting keys leave and `more` are added, nothing else changes. */
  lemma FirstKeysLeave(run: Run, n: nat, exit: Exit, more: seq<KeyData>)
    requires n <= |run.waiting|
    ensures KeysOf(run.gone + AllLeave(run.waiting[..n], exit)) + (run.waiting[n..] + more)
         == KeysOf(run.gone) + run.waiting + more
  {
    assert KeysOf(run.gone + AllLeave(run.waiting[..n], exit)) == KeysOf(run.gone) + run.waiting[..n];
    assert run.waiting == run.waiting[..n] + run.waiting[n..];
  }

  lemma StepConservesKeys(run: Run, op: Operation)
    requires |run.waiting| < MAX_COUNT
    ensures |Step(run, op).waiting| < MAX_COUNT
    ensures KeysOf(Step(run, op).gone) + Step(run, op).waiting == KeysOf(run.gone) + run.waiting + PushedBy(op)
  {
    match op {
      case Push(key) =>
        var n := if |run.waiting| == MAX_COUNT - 1 then 1 else 0;
        FirstKeysLeave(run, n, Lost, [key]);
        assert Pushed(run.waiting, key) == run.waiting[n..] + [key];
        assert run.waiting[..0] == [];
      case Pop =>
        FirstKeysLeave(run, if run.waiting == [] then 0 else 1, Taken, []);
      case Reset =>
        FirstKeysLeave(run, |run.waiting|, Discarded, []);
        assert run.waiting[..|run.waiting|] == run.waiting;
    }
  }

  /** Over any run, every key pushed has left or is waiting, in the order it was pushed, and at most 255 wait. */
  lemma {:induction false} RunConservesKeys(ops: seq<Operation>)
    ensures KeysOf(RunAll(ops).gone) + RunAll(ops).waiting == PushedKeys(ops)
    ensures |RunAll(ops).waiting| <= 255
  {
    if ops == [] {
    } else {
      RunConservesKeys(ops[..|ops| - 1]);
      StepConservesKeys(RunAll(ops[..|ops| - 1]), ops[|ops| - 1]);
    }
  }

  /** The `i`-th operation is a push that finds 255 keys waiting. */
  ghost predicate PushedWhenFull(ops: seq<Operation>, i: nat)
  {
    i < |ops| && ops[i].Push? && |RunAll(ops[..i]).waiting| == 255
  }

  function Leaving(gone: seq<Departure>, exit: Exit): seq<KeyData>
  {
    if gone == [] then []
    else
      var last := gone[|gone| - 1];
      Leaving(gone[..|gone| - 1], exit) + (if last.exit == exit then [last.key] else [])
  }

  lemma LeavingOfOne(gone: seq<Departure>, key: KeyData, how: Exit, exit: Exit)
    ensures Leaving(gone + [Departure(key, how)], exit) == Leaving(gone, exit) + if how == exit then [key] else []
  {
    assert (gone + [Departure(key, how)])[..|gone|] == gone;
  }

  lemma AllLeaveOneMore(gone: seq<Departure>, init: seq<KeyData>, last: KeyData, how: Exit)
    ensures gone + AllLeave(init + [last], how) == (gone + AllLeave(init, how)) + [Departure(last, how)]
  {
  }

  lemma {:induction false} LeavingOfMore(gone: seq<Departure>, keys: seq<KeyData>, how: Exit, exit: Exit)
    ensures Leaving(gone + AllLeave(keys, how), exit) == Leaving(gone, exit) + if how == exit then keys else []
  {
    if keys == [] {
      assert gone + AllLeave([], how) == gone;
    } else {
      var init, last := keys[..|keys| - 1], keys[|keys| - 1];
      assert keys == init + [last];
      AllLeaveOneMore(gone, init, last, how);
      LeavingOfMore(gone, init, how, exit);
      LeavingOfOne(gone + AllLeave(init, how), last, how, exit);
    }
  }

  lemma StepLoses(run: Run, op: Operation)
    ensures Leaving(Step(run, op).gone, Lost)
         == Leaving(run.gone, Lost) + if op.Push? && |run.waiting| == MAX_COUNT - 1 then run.waiting[..1] else []
    ensures |Leaving(Step(run, op).gone, Lost)|
         == |Leaving(run.gone, Lost)| + if op.Push? && |run.waiting| == MAX_COUNT - 1 then 1 else 0
  {
    match op {
      case Push(_) =>
        LeavingOfMore(run.gone, if |run.waiting| == MAX_COUNT - 1 then run.waiting[..1] else [], Lost, Lost);
      case Pop => LeavingOfMore(run.gone, run.waiting[..if run.waiting == [] then 0 else 1], Taken, Lost);
      case Reset => LeavingOfMore(run.gone, run.waiting, Discarded, Lost);
    }
  }

  /** How many of the first `n` operations are pushes that find 255 keys waiting. */
  ghost function FullPushes(ops: seq<Operation>, n: nat): nat
    requires n <= |ops|
  {
    if n == 0 then 0 else FullPushes(ops, n - 1) + if PushedWhenFull(ops, n - 1) then 1 else 0
  }

  /** Each push that finds 255 keys waiting loses one key, and nothing else does. */
  lemma {:induction false} LosesOneKeyPerFullPush(ops: seq<Operation>, n: nat)
    requires n <= |ops|
    ensures |Leaving(RunAll(ops[..n]).gone, Lost)| == FullPushes(ops, n)
  {
    if n == 0 {
    } else {
      LosesOneKeyPerFullPush(ops, n - 1);
      assert ops[..n][..n - 1] == ops[..n - 1] && ops[..n][n - 1] == ops[n - 1];
      assert RunAll(ops[..n]) == Step(RunAll(ops[..n - 1]), ops[n - 1]);
      StepLoses(RunAll(ops[..n - 1]), ops[n - 1]);
    }
  }

  lemma StepTakes(run: Run, op: Operation)
    requires op.Pop? || (op.Push? && |run.waiting| < MAX_COUNT - 1)
    requires Leaving(run.gone, Taken) == KeysOf(run.gone)
    ensures Leaving(Step(run, op).gone, Taken) == KeysOf(Step(run, op).gone)
  {
    var first := run.waiting[..if op.Push? || run.waiting == [] then 0 else 1];
    LeavingOfMore(run.gone, first, Taken, Taken);
    assert KeysOf(run.gone + AllLeave(first, Taken)) == KeysOf(run.gone) + first;
    if op.Push? {
      assert Step(run, op).gone == run.gone;
    }
  }

  lemma {:induction false} AllTaken(ops: seq<Operation>, n: nat)
    requires n <= |ops| && Reset !in ops && forall i: nat :: !PushedWhenFull(ops, i)
    ensures Leaving(RunAll(ops[..n]).gone, Taken) == KeysOf(RunAll(ops[..n]).gone)
  {
    if n == 0 {
    } else {
      AllTaken(ops, n - 1);
      var init, op := ops[..n - 1], ops[n - 1];
      assert ops[..n][..n - 1] == init && ops[..n][n - 1] == op && op in ops;
      assert !PushedWhenFull(ops, n - 1);
      RunConservesKeys(init);
      StepTakes(RunAll(init), op);
    }
  }

  /**
   Without resets, and while no push finds 255 keys waiting, what is popped and what
   waits is what was pushed, in order.
   */
  lemma FirstInFirstOut(ops: seq<Operation>)
    requires Reset !in ops && forall i: nat :: !PushedWhenFull(ops, i)
    ensures Leaving(RunAll(ops).gone, Taken) + RunAll(ops).waiting == PushedKeys(ops)
  {
    AllTaken(ops, |ops|);
    assert ops[..|ops|] == ops;
    RunConservesKeys(ops);
  }

  // ---------- The ring ----------

  /** The keys from `head` up to `tail`, going around the end of the buffer. */
  function Ring(buf: seq<KeyData>, head: nat, tail: nat): (keys: seq<KeyData>)
    requires |buf| == MAX_COUNT && head < MAX_COUNT && tail < MAX_COUNT
    ensures |keys| == (if head <= tail then tail - head else MAX_COUNT - head + tail)
  {
    if head <= tail then buf[head..tail] else buf[head..] + buf[..tail]
  }

  function Next(index: nat): nat
  {
    (index + 1) % MAX_COUNT
  }

  lemma NextIs(index: nat)
    requires index < MAX_COUNT
    ensures Next(index) == if index + 1 == MAX_COUNT then 0 else index + 1
  {
  }

  lemma PopSlice(buf: seq<KeyData>, head: nat, rest: seq<KeyData>)
    requires head < |buf|
    ensures buf[head..] + rest == [buf[head]] + (buf[head + 1..] + rest)
  {
    assert buf[head..] == [buf[head]] + buf[head + 1..];
  }

  lemma RingPop(buf: seq<KeyData>, head: nat, tail: nat)
    requires |buf| == MAX_COUNT && head < MAX_COUNT && tail < MAX_COUNT && head != tail
    ensures Ring(buf, head, tail) == [buf[head]] + Ring(buf, Next(head), tail)
  {
    NextIs(head);
    if head < tail {
      PopSlice(buf[..tail], head, []);
    } else {
      PopSlice(buf, head, buf[..tail]);
    }
  }

  lemma RingPush(buf: seq<KeyData>, head: nat, tail: nat, key: KeyData)
    requires |buf| == MAX_COUNT && head < MAX_COUNT && tail < MAX_COUNT && Next(tail) != head
    ensures Ring(buf[tail := key], head, Next(tail)) == Ring(buf, head, tail) + [key]
  {
    NextIs(tail);
    var after := buf[tail := key];
    if head <= tail {
      assert after[head..tail + 1] == buf[head..tail] + [key];
    } else {
      assert after[..tail + 1] == buf[..tail] + [key];
      assert after[head..] == buf[head..];
    }
  }

  lemma RingIsFull(head: nat, tail: nat)
    requires head < MAX_COUNT && tail < MAX_COUNT
    ensures Next(tail) == head <==> (if head <= tail then tail - head else MAX_COUNT - head + tail) == MAX_COUNT - 1
  {
  }

  class EfiKeyQueue {
    const buffer: array<KeyData>
    var head: nat
    var tail: nat

    ghost predicate Valid()
      reads this
    {
      buffer.Length == MAX_COUNT && head < MAX_COUNT && tail < MAX_COUNT
    }

    ghost function Contents(): (keys: seq<KeyData>)
      requires Valid()
      reads this, buffer
      ensures |keys| < MAX_COUNT
    {
      Ring(buffer[..], head, tail)
    }

    /** A zeroed queue. */
    constructor ()
      ensures Valid() && Contents() == [] && fresh(buffer)
    {
      buffer := new KeyData[MAX_COUNT](_ => KeyData(0, 0, 0, 0));
      head := 0;
      tail := 0;
    }

    predicate IsEmpty()
      requires Valid()
      reads this, buffer
      ensures IsEmpty() <==> Contents() == []
    {
      head == tail
    }

    /** The key that `PopHead` would remove. */
    method Peek() returns (key: KeyData)
      requires Valid() && Contents() != []
      ensures key == Contents()[0]
    {
      key := buffer[head];
    }

    method PopHead() returns (key: Option<KeyData>)
      requires Valid()
      modifies this
      ensures Valid()
      ensures if old(Contents()) == [] then key == None && Contents() == []
              else key == Some(old(Contents())[0]) && Contents() == old(Contents())[1..]
    {
      if IsEmpty() {
        return None;
      }
      RingPop(buffer[..], head, tail);
      key := Some(buffer[head]);
      head := Next(head);
    }

    method PushTail(key: KeyData)
      requires Valid()
      modifies this, buffer
      ensures Valid()
      ensures Contents() == Pushed(old(Contents()), key)
    {
      RingIsFull(head, tail);
      if Next(tail) == head {
        var dropped := PopHead();
        RingIsFull(head, tail);
      }
      RingPush(buffer[..], head, tail, key);
      ghost var before := buffer[..];
      buffer[tail] := key;
      assert buffer[..] == before[tail := key];
      tail := Next(tail);
    }

    method Clear()
      requires Valid()
      modifies this
      ensures Valid() && Contents() == []
    {
      head := 0;
      tail := 0;
    }
  }

  lemma StepGives(run: Run, op: Operation)
    ensures Leaving(Step(run, op).gone, Taken)
         == Leaving(run.gone, Taken) + if op.Pop? && run.waiting != [] then run.waiting[..1] else []
  {
    match op {
      case Push(_) =>
        LeavingOfMore(run.gone, if |run.waiting| == MAX_COUNT - 1 then run.waiting[..1] else [], Lost, Taken);
      case Pop => LeavingOfMore(run.gone, run.waiting[..if run.waiting == [] then 0 else 1], Taken, Taken);
      case Reset => LeavingOfMore(run.gone, run.waiting, Discarded, Taken);
    }
  }

  /** One operation on the ring; `taken` is the key that a pop gives. */
  method StepOnRing(q: EfiKeyQueue, op: Operation, ghost run: Run) returns (taken: seq<KeyData>)
    requires q.Valid() && q.Contents() == run.waiting
    modifies q, q.buffer
    ensures q.Valid() && q.Contents() == Step(run, op).waiting
    ensures Leaving(Step(run, op).gone, Taken) == Leaving(run.gone, Taken) + taken
  {
    StepGives(run, op);
    taken := [];
    match op {
      case Push(key) => q.PushTail(key);
      case Pop =>
        var key := q.PopHead();
        if key.Some? {
          taken := [key.value];
        }
      case Reset => q.Clear();
    }
  }

  /** Any run of operations on the ring; `popped` are the keys that the pops give. */
  method RunOnRing(q: EfiKeyQueue, ops: seq<Operation>) returns (popped: seq<KeyData>)
    requires q.Valid() && q.Contents() == []
    modifies q, q.buffer
    ensures q.Valid() && q.Contents() == RunAll(ops).waiting
    ensures popped == Leaving(RunAll(ops).gone, Taken)
  {
    popped := [];
    for i := 0 to |ops|
      invariant q.Valid() && q.Contents() == RunAll(ops[..i]).waiting
      invariant popped == Leaving(RunAll(ops[..i]).gone, Taken)
    {
      assert ops[..i + 1][..i] == ops[..i] && ops[..i + 1][i] == ops[i];
      var taken := StepOnRing(q, ops[i], RunAll(ops[..i]));
      popped := popped + taken;
    }
    assert ops[..|ops|] == ops;
  }
}
