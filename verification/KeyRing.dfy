/**
 The keyboard ring in the BIOS data area: four 16-bit pointers and a run of two-byte
 slots, refining a queue that holds one key less than it has slots.
 */
module KeyRing {
  import opened Words

  datatype Key = Key(scan: byte, ascii: byte)

  // ---------- the data area ----------

  const HEAD := 0x1a
  const TAIL := 0x1c
  const START := 0x80
  const END := 0x82

  /** Segment 0x40, one byte for each 16-bit offset. */
  type Area = m: seq<byte> | |m| == 0x1_0000 witness seq(0x1_0000, _ => 0)

  function Word(m: Area, at: nat): word
    requires at < 0xffff
  {
    m[at] as int + 256 * m[at + 1] as int
  }

  function PutWord(m: Area, at: nat, x: word): Area
    requires at < 0xffff
  {
    m[at := x % 256][at + 1 := x / 256]
  }

  datatype Ring = Ring(start: word, end: word, head: word, tail: word) {
    /** Slots are two bytes; the slots and the pointers do not overlap. */
    predicate Sound() {
      Slot(head) && Slot(tail) && (end - start) % 2 == 0
      && ((TAIL + 2 <= start && end <= START) || END + 2 <= start)
    }

    predicate Slot(at: int) { start <= at < end && (at - start) % 2 == 0 }

    function Next(at: nat): word
      requires at < end
    {
      if U16(at + 2) >= end then start else U16(at + 2)
    }

    /** The slot of the i-th key waiting. */
    function Nth(i: nat): int {
      if head + 2 * i < end then head + 2 * i else head + 2 * i - (end - start)
    }

    function Count(): int {
      if tail >= head then (tail - head) / 2 else (tail - head + (end - start)) / 2
    }

    function Capacity(): int { (end - start) / 2 - 1 }
  }

  function RingOf(m: Area): Ring { Ring(Word(m, START), Word(m, END), Word(m, HEAD), Word(m, TAIL)) }

  predicate Good(m: Area) { RingOf(m).Sound() }

  /** The pointers are stored low byte first: the bounds of the buffer at 40:80 and 40:82,
      the slots to read from and to write to next at 40:1a and 40:1c. */
  lemma RingBytes(m: Area)
    ensures var r := RingOf(m);
      && r.start % 256 == m[0x80] && r.start / 256 == m[0x81] && r.end % 256 == m[0x82] && r.end / 256 == m[0x83]
      && r.head % 256 == m[0x1a] && r.head / 256 == m[0x1b] && r.tail % 256 == m[0x1c] && r.tail / 256 == m[0x1d]
  {
  }

  lemma NthSlot(r: Ring, i: nat)
    requires r.Sound() && i <= r.Capacity()
    ensures r.Slot(r.Nth(i)) && 0 <= r.Count() <= r.Capacity()
    ensures r.Nth(i) == r.tail <==> i == r.Count()
  {
    CountBounds(r);
    SlotNumber(r, r.head);
    SlotNumber(r, r.tail);
    var n, a: nat := (r.end - r.start) / 2, (r.head - r.start) / 2;
    assert r.end == r.start + 2 * n;
    NumberSlot(r, r.Nth(i), if a + i < n then a + i else a + i - n);
  }

  /** Slots are numbered from the start of the buffer. */
  lemma SlotNumber(r: Ring, at: int)
    requires r.Slot(at)
    ensures at == r.start + 2 * ((at - r.start) / 2)
  {
  }

  lemma NumberSlot(r: Ring, at: int, k: int)
    requires r.Sound() && at == r.start + 2 * k && r.start <= at < r.end
    ensures r.Slot(at)
  {
  }

  lemma CountBounds(r: Ring)
    requires r.Sound()
    ensures 0 <= r.Count() <= r.Capacity()
    ensures 2 * r.Count() == if r.tail >= r.head then r.tail - r.head else r.tail - r.head + (r.end - r.start)
  {
  }

  function KeyAt(m: Area, at: int): Key {
    if 0 <= at < 0xffff then Key(m[at + 1], m[at]) else Key(0, 0)
  }

  /** The keys waiting, oldest first. */
  function Keys(m: Area): (q: seq<Key>)
    requires Good(m)
    ensures |q| == RingOf(m).Count() <= RingOf(m).Capacity()
  {
    NthSlot(RingOf(m), 0);
    seq(RingOf(m).Count(), i requires 0 <= i => KeyAt(m, RingOf(m).Nth(i)))
  }

  // ---------- the writes ----------

  lemma WordBytes(x: word)
    ensures x % 256 + 256 * (x / 256) == x && 0 <= x / 256 < 256
  {
  }

  /** Writing a pointer changes that pointer and leaves every slot alone. */
  lemma PointerWritten(m: Area, at: nat, x: word)
    requires at == HEAD || at == TAIL
    ensures var r, s := RingOf(m), RingOf(PutWord(m, at, x));
      s == if at == HEAD then r.(head := x) else r.(tail := x)
    ensures forall k :: 0 <= k < |m| && k != at && k != at + 1 ==> PutWord(m, at, x)[k] == m[k]
  {
    WordBytes(x);
  }

  /** What enqueue_key leaves behind when there is room. */
  function Pushed(m: Area, key: Key): Area
    requires Good(m)
  {
    var r := RingOf(m);
    PutWord(m[r.tail := key.ascii][r.tail + 1 := key.scan], TAIL, r.Next(r.tail))
  }

  /** What dequeue_key leaves behind when a key was taken. */
  function Popped(m: Area): Area
    requires Good(m)
  {
    PutWord(m, HEAD, RingOf(m).Next(RingOf(m).head))
  }

  function Flushed(m: Area): Area { PutWord(m, TAIL, Word(m, HEAD)) }

  lemma PushedRing(m: Area, key: Key)
    requires Good(m)
    ensures RingOf(Pushed(m, key)) == RingOf(m).(tail := RingOf(m).Next(RingOf(m).tail))
    ensures forall k :: 0 <= k < |m| && k !in {TAIL, TAIL + 1, RingOf(m).tail, RingOf(m).tail + 1} ==>
              Pushed(m, key)[k] == m[k]
    ensures KeyAt(Pushed(m, key), RingOf(m).tail) == key
    ensures Pushed(m, key)[RingOf(m).tail] == key.ascii && Pushed(m, key)[RingOf(m).tail + 1] == key.scan
  {
    var r := RingOf(m);
    var w := m[r.tail := key.ascii][r.tail + 1 := key.scan];
    assert RingOf(w) == r;
    PointerWritten(w, TAIL, r.Next(r.tail));
  }

  /** The pointer moves one slot on, and from the last slot back to the first. */
  lemma NextSlot(r: Ring, at: nat)
    requires r.Sound() && r.Slot(at)
    ensures r.Slot(r.Next(at))
    ensures r.Next(at) == if at + 2 == r.end then r.start else at + 2
  {
  }

  lemma TailMoves(r: Ring, i: nat)
    requires r.Sound() && r.Count() < r.Capacity()
    ensures var s := r.(tail := r.Next(r.tail));
      s.Sound() && s.Count() == r.Count() + 1 && s.Nth(i) == r.Nth(i)
  {
    NextSlot(r, r.tail);
  }

  lemma HeadMoves(r: Ring)
    requires r.Sound() && r.head != r.tail
    ensures var s := r.(head := r.Next(r.head)); s.Sound() && s.Count() == r.Count() - 1
  {
    NextSlot(r, r.head);
  }

  lemma NthMoves(r: Ring, i: nat)
    requires r.Sound() && i + 1 < r.Count() <= r.Capacity()
    ensures r.(head := r.Next(r.head)).Nth(i) == r.Nth(i + 1)
  {
    NextSlot(r, r.head);
  }

  /** There is room exactly when the tail can move without meeting the head. */
  lemma RoomLeft(r: Ring)
    requires r.Sound()
    ensures r.Next(r.tail) == r.head <==> r.Count() == r.Capacity()
    ensures r.tail == r.head <==> r.Count() == 0
  {
  }

  lemma PushQueues(m: Area, key: Key)
    requires Good(m) && |Keys(m)| < RingOf(m).Capacity()
    ensures Good(Pushed(m, key)) && Keys(Pushed(m, key)) == Keys(m) + [key]
  {
    var r, w := RingOf(m), Pushed(m, key);
    PushedRing(m, key);
    TailMoves(r, 0);
    forall i | 0 <= i < |Keys(w)|
      ensures Keys(w)[i] == (Keys(m) + [key])[i]
    {
      TailMoves(r, i);
      NthSlot(r, i);
    }
  }

  lemma FirstKey(m: Area)
    requires Good(m) && Keys(m) != []
    ensures Keys(m)[0] == KeyAt(m, RingOf(m).head)
  {
    assert RingOf(m).Nth(0) == RingOf(m).head;
  }

  lemma PopQueues(m: Area)
    requires Good(m) && Keys(m) != []
    ensures Good(Popped(m)) && Keys(Popped(m)) == Keys(m)[1..]
  {
    var r, w := RingOf(m), Popped(m);
    PointerWritten(m, HEAD, r.Next(r.head));
    HeadMoves(r);
    forall i | 0 <= i < |Keys(w)|
      ensures Keys(w)[i] == Keys(m)[i + 1]
    {
      NthSlot(r, i + 1);
      NthMoves(r, i);
      UntouchedSlot(m, r.Nth(i + 1));
    }
  }

  lemma UntouchedSlot(m: Area, at: int)
    requires Good(m) && RingOf(m).Slot(at)
    ensures KeyAt(Popped(m), at) == KeyAt(m, at)
  {
    PointerWritten(m, HEAD, RingOf(m).Next(RingOf(m).head));
  }

  lemma FlushEmpties(m: Area)
    requires Good(m)
    ensures Good(Flushed(m)) && Keys(Flushed(m)) == [] && RingOf(Flushed(m)).Capacity() == RingOf(m).Capacity()
  {
    PointerWritten(m, TAIL, Word(m, HEAD));
  }

  // ---------- the bounded queue ----------

  datatype Op = Enqueue(key: Key) | Dequeue | Peek | CtrlBreak

  datatype Outcome = Refused | Done | Read(key: Key)

  datatype Step = Step(queue: seq<Key>, outcome: Outcome)

  function Push(q: seq<Key>, cap: int, key: Key): seq<Key> {
    if |q| < cap then q + [key] else q
  }

  /** One operation on a queue of at most cap keys. */
  function Apply(q: seq<Key>, cap: int, op: Op): Step {
    match op
    case Enqueue(key) => Step(Push(q, cap, key), if |q| < cap then Done else Refused)
    case Dequeue => if q == [] then Step(q, Refused) else Step(q[1..], Read(q[0]))
    case Peek => if q == [] then Step(q, Refused) else Step(q, Read(q[0]))
    case CtrlBreak => Step(Push([], cap, Key(0, 0)), Done)
  }

  function After(q: seq<Key>, cap: int, ops: seq<Op>): seq<Key> {
    if ops == [] then q else Apply(After(q, cap, ops[..|ops| - 1]), cap, ops[|ops| - 1]).queue
  }

  function Outcomes(q: seq<Key>, cap: int, ops: seq<Op>): seq<Outcome> {
    if ops == [] then []
    else Outcomes(q, cap, ops[..|ops| - 1])
         + [Apply(After(q, cap, ops[..|ops| - 1]), cap, ops[|ops| - 1]).outcome]
  }

  /** What an operation lets in: a key while there is room, and a break its own. */
  function In(was: seq<Key>, cap: int, op: Op): seq<Key> {
    match op
    case Enqueue(key) => if |was| < cap then [key] else []
    case CtrlBreak => if 0 < cap then [Key(0, 0)] else []
    case Dequeue => []
    case Peek => []
  }

  /** What it takes out: the key read, or everything a break flushes. */
  function Out(was: seq<Key>, op: Op): seq<Key> {
    match op
    case Dequeue => if was != [] then [was[0]] else []
    case CtrlBreak => was
    case Enqueue(_) => []
    case Peek => []
  }

  /** The keys that entered, in order. */
  function Entered(q: seq<Key>, cap: int, ops: seq<Op>): seq<Key> {
    if ops == [] then []
    else
      var front := ops[..|ops| - 1];
      Entered(q, cap, front) + In(After(q, cap, front), cap, ops[|ops| - 1])
  }

  /** The keys that left, read or flushed, in order. */
  function Departed(q: seq<Key>, cap: int, ops: seq<Op>): seq<Key> {
    if ops == [] then []
    else
      var front := ops[..|ops| - 1];
      Departed(q, cap, front) + Out(After(q, cap, front), ops[|ops| - 1])
  }

  /** Over every run no key is lost, made up or overtaken. */
  lemma {:induction false} KeysConserved(q: seq<Key>, cap: int, ops: seq<Op>)
    requires |q| <= cap
    ensures q + Entered(q, cap, ops) == Departed(q, cap, ops) + After(q, cap, ops)
    ensures |After(q, cap, ops)| <= cap
    decreases |ops|
  {
    if ops != [] {
      var front := ops[..|ops| - 1];
      KeysConserved(q, cap, front);
      var was := After(q, cap, front);
      OneStep(was, cap, ops[|ops| - 1]);
      var e, d := In(was, cap, ops[|ops| - 1]), Out(was, ops[|ops| - 1]);
      Regroup(q, Entered(q, cap, front), e);
      Regroup(Departed(q, cap, front), was, e);
      Regroup(Departed(q, cap, front), d, After(q, cap, ops));
    }
  }

  lemma OneStep(was: seq<Key>, cap: int, op: Op)
    requires |was| <= cap
    ensures was + In(was, cap, op) == Out(was, op) + Apply(was, cap, op).queue
    ensures |Apply(was, cap, op).queue| <= cap
  {
  }

  lemma Regroup(a: seq<Key>, b: seq<Key>, c: seq<Key>)
    ensures a + (b + c) == a + b + c
  {
  }

  // ---------- the code ----------

  class Keyboard {
    const bda: array<byte>

    constructor (area: array<byte>)
      ensures bda == area
    {
      bda := area;
    }

    ghost predicate Valid()
      reads bda
    {
      bda.Length == 0x1_0000 && Good(bda[..])
    }

    ghost function Queue(): seq<Key>
      requires Valid()
      reads bda
    {
      Keys(bda[..])
    }

    ghost function Capacity(): int
      requires Valid()
      reads bda
    {
      RingOf(bda[..]).Capacity()
    }

    method ReadWord(at: nat) returns (x: word)
      requires bda.Length == 0x1_0000 && at < 0xffff
      ensures x == Word(bda[..], at)
    {
      x := bda[at] as int + 256 * bda[at + 1] as int;
    }

    method WriteWord(at: nat, x: word)
      requires bda.Length == 0x1_0000 && at < 0xffff
      modifies bda
      ensures bda[..] == PutWord(old(bda[..]), at, x)
    {
      bda[at] := x % 256;
      bda[at + 1] := x / 256;
    }

    method ReadRing() returns (r: Ring)
      requires bda.Length == 0x1_0000
      ensures r == RingOf(bda[..])
    {
      var start := ReadWord(START);
      var end := ReadWord(END);
      var head := ReadWord(HEAD);
      var tail := ReadWord(TAIL);
      r := Ring(start, end, head, tail);
    }

    /** enqueue_key */
    method EnqueueKey(key: Key) returns (ok: bool)
      requires Valid()
      modifies bda
      ensures Valid() && Capacity() == old(Capacity())
      ensures ok <==> |old(Queue())| < Capacity()
      ensures Queue() == if ok then old(Queue()) + [key] else old(Queue())
      ensures bda[..] == if ok then Pushed(old(bda[..]), key) else old(bda[..])
    {
      var r := ReadRing();
      ghost var was := bda[..];
      RoomLeft(r);
      var tail := U16(r.tail + 2);
      if tail >= r.end {
        tail := r.start;
      }
      if tail == r.head {
        return false;
      }
      PushQueues(was, key);
      PushedRing(was, key);
      PutKey(r, tail, key);
      return true;
    }

    /** The stores of enqueue_key. */
    method PutKey(r: Ring, tail: word, key: Key)
      requires Valid() && r == RingOf(bda[..]) && tail == r.Next(r.tail)
      modifies bda
      ensures bda[..] == Pushed(old(bda[..]), key)
    {
      bda[r.tail] := key.ascii;
      bda[r.tail + 1] := key.scan;
      WriteWord(TAIL, tail);
    }

    /** dequeue_key; peeks when incr is false. */
    method DequeueKey(incr: bool) returns (outcome: Outcome)
      requires Valid()
      modifies bda
      ensures Valid() && Capacity() == old(Capacity())
      ensures outcome == if old(Queue()) == [] then Refused else Read(old(Queue())[0])
      ensures Queue() == if incr && old(Queue()) != [] then old(Queue())[1..] else old(Queue())
      ensures bda[..] == if incr && old(Queue()) != [] then Popped(old(bda[..])) else old(bda[..])
    {
      var r := ReadRing();
      ghost var was := bda[..];
      RoomLeft(r);
      if r.head == r.tail {
        return Refused;
      }
      FirstKey(was);
      outcome := Read(Key(bda[r.head + 1], bda[r.head]));
      if incr {
        AdvanceHead(r);
      }
    }

    /** The second half of dequeue_key. */
    method AdvanceHead(r: Ring)
      requires Valid() && r == RingOf(bda[..]) && Queue() != []
      modifies bda
      ensures Valid() && Capacity() == old(Capacity()) && Queue() == old(Queue())[1..]
      ensures bda[..] == Popped(old(bda[..]))
    {
      PopQueues(bda[..]);
      PointerWritten(bda[..], HEAD, r.Next(r.head));
      var head := U16(r.head + 2);
      if head >= r.end {
        head := r.start;
      }
      WriteWord(HEAD, head);
    }

    /** The Ctrl-Break branch of int09_function. */
    method CtrlBreakPressed()
      requires Valid()
      modifies bda
      ensures Valid() && Capacity() == old(Capacity())
      ensures Queue() == Push([], Capacity(), Key(0, 0))
    {
      FlushEmpties(bda[..]);
      var head := ReadWord(HEAD);
      WriteWord(TAIL, head);
      var ok := EnqueueKey(Key(0, 0));
    }

    method Execute(op: Op) returns (outcome: Outcome)
      requires Valid()
      modifies bda
      ensures Valid() && Capacity() == old(Capacity())
      ensures Step(Queue(), outcome) == Apply(old(Queue()), Capacity(), op)
    {
      match op {
        case Enqueue(key) =>
          var ok := EnqueueKey(key);
          outcome := if ok then Done else Refused;
        case Dequeue => outcome := DequeueKey(true);
        case Peek => outcome := DequeueKey(false);
        case CtrlBreak =>
          CtrlBreakPressed();
          outcome := Done;
      }
    }

    /** Any run of key strokes, reads, peeks and breaks is a run of the bounded queue. */
    method Run(ops: seq<Op>) returns (outcomes: seq<Outcome>)
      requires Valid()
      modifies bda
      ensures Valid() && Capacity() == old(Capacity())
      ensures Queue() == After(old(Queue()), Capacity(), ops)
      ensures outcomes == Outcomes(old(Queue()), Capacity(), ops)
    {
      outcomes := [];
      ghost var q, cap := Queue(), Capacity();
      for i := 0 to |ops|
        invariant Valid() && Capacity() == cap
        invariant Queue() == After(q, cap, ops[..i])
        invariant outcomes == Outcomes(q, cap, ops[..i])
      {
        assert ops[..i + 1][..i] == ops[..i];
        var outcome := Execute(ops[i]);
        outcomes := outcomes + [outcome];
      }
      assert ops[..|ops|] == ops;
    }
  }

  /** The ring the BIOS sets up holds fifteen keys. */
  lemma FifteenKeys(m: Area)
    requires RingOf(m) == Ring(0x1e, 0x3e, 0x1e, 0x1e)
    ensures Good(m) && Keys(m) == [] && RingOf(m).Capacity() == 15
  {
  }
}
