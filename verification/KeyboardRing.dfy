/** The keyboard ring: an interrupt handler that pushes, and a reader that pops in three steps. */
module KeyboardRing {
  import opened Words

  const RING := 256
  const CAPACITY := RING - 1

  datatype Ring = Ring(buffer: seq<Byte>, head: nat, tail: nat) {
    predicate Valid() {
      |buffer| == RING && head < RING && tail < RING
    }

    /** The characters between tail and head, oldest first. */
    function Contents(): (q: seq<Byte>)
      requires Valid()
      ensures |q| <= CAPACITY && (q == [] <==> head == tail)
    {
      if tail <= head then buffer[tail..head] else buffer[tail..] + buffer[..head]
    }
  }

  /** kbd_push, in one piece. */
  function Push(r: Ring, c: Byte): Ring
    requires r.Valid()
  {
    var next := (r.head + 1) % RING;
    if next == r.tail then r else r.(buffer := r.buffer[r.head := c], head := next)
  }

  /** Where kbd_pop stands: before its test, after it, or with the character read. */
  datatype Reader = Idle | Tested | Holding(c: Byte)

  datatype Machine = Machine(ring: Ring, reader: Reader)

  /** A key press, or the next step of the reader. */
  datatype Event = Press(c: Byte) | Advance

  /** What the outside sees: a key stored, a key dropped, a character returned (0 for none). */
  datatype Output = Stored(c: Byte) | Dropped(c: Byte) | Returned(c: Byte)

  function Step(m: Machine, e: Event): (Machine, seq<Output>)
    requires m.ring.Valid()
  {
    match e
    case Press(c) =>
      var r := Push(m.ring, c);
      (m.(ring := r), [if r == m.ring then Dropped(c) else Stored(c)])
    case Advance =>
      match m.reader
      case Idle => if m.ring.head == m.ring.tail then (m, [Returned(0)]) else (m.(reader := Tested), [])
      case Tested => (m.(reader := Holding(m.ring.buffer[m.ring.tail])), [])
      case Holding(c) => (Machine(m.ring.(tail := (m.ring.tail + 1) % RING), Idle), [Returned(c)])
  }

  function Run(m: Machine, events: seq<Event>): (Machine, seq<Output>)
    requires m.ring.Valid()
    decreases |events|
  {
    if events == [] then (m, [])
    else
      var (next, out) := Step(m, events[0]);
      var (last, rest) := Run(next, events[1..]);
      (last, out + rest)
  }

  // ----- the sequential queue

  datatype Call = PushCall(c: Byte) | PopCall

  function Sequential(q: seq<Byte>, call: Call): (seq<Byte>, Output) {
    match call
    case PushCall(c) => if |q| < CAPACITY then (q + [c], Stored(c)) else (q, Dropped(c))
    case PopCall => if q == [] then (q, Returned(0)) else (q[1..], Returned(q[0]))
  }

  function RunSequential(q: seq<Byte>, calls: seq<Call>): (seq<Byte>, seq<Output>)
    decreases |calls|
  {
    if calls == [] then (q, [])
    else
      var (next, out) := Sequential(q, calls[0]);
      var (last, rest) := RunSequential(next, calls[1..]);
      (last, [out] + rest)
  }

  /** The calls in the order in which they take effect: a pop when it finds the ring empty or moves the tail. */
  function Linearized(m: Machine, events: seq<Event>): seq<Call>
    requires m.ring.Valid()
    decreases |events|
  {
    if events == [] then []
    else
      var calls :=
        match events[0]
        case Press(c) => [PushCall(c)]
        case Advance =>
          if m.reader.Holding? || (m.reader.Idle? && m.ring.head == m.ring.tail) then [PopCall] else [];
      calls + Linearized(Step(m, events[0]).0, events[1..])
  }

  /** The reader past its test holds, or will read, the oldest character. */
  predicate Consistent(m: Machine) {
    && m.ring.Valid()
    && (m.reader != Idle ==> m.ring.Contents() != [])
    && (m.reader.Holding? ==> m.reader.c == m.ring.Contents()[0])
  }

  /** A push appends to the contents, or changes nothing when 255 characters are waiting. */
  lemma PushContents(r: Ring, c: Byte)
    requires r.Valid()
    ensures Push(r, c).Valid()
    ensures Push(r, c).Contents() == if |r.Contents()| < 255 then r.Contents() + [c] else r.Contents()
    ensures Push(r, c) == r <==> |r.Contents()| == 255
  {
  }

  lemma TailContents(r: Ring)
    requires r.Valid() && r.head != r.tail
    ensures r.Contents()[0] == r.buffer[r.tail]
    ensures r.(tail := (r.tail + 1) % RING).Valid() && r.(tail := (r.tail + 1) % RING).Contents() == r.Contents()[1..]
  {
  }

  lemma StepKeeps(m: Machine, e: Event)
    requires Consistent(m)
    ensures Consistent(Step(m, e).0)
  {
    match e
    case Press(c) =>
      PushContents(m.ring, c);
    case Advance =>
      if m.ring.head != m.ring.tail {
        TailContents(m.ring);
      }
  }

  /**
   With key presses at any point between the steps of the reader, every history gives the same outputs and
   leaves the same queue as a sequential queue of capacity 255 that drops characters when full.
   */
  lemma {:induction false} Linearizable(m: Machine, events: seq<Event>)
    requires Consistent(m)
    ensures Consistent(Run(m, events).0)
    ensures RunSequential(m.ring.Contents(), Linearized(m, events)) ==
              (Run(m, events).0.ring.Contents(), Run(m, events).1)
    decreases |events|
  {
    if events != [] {
      var (next, out) := Step(m, events[0]);
      StepKeeps(m, events[0]);
      Linearizable(next, events[1..]);
      var rest := Linearized(next, events[1..]);
      match events[0] {
        case Press(c) =>
          PushContents(m.ring, c);
          assert Linearized(m, events) == [PushCall(c)] + rest;
          assert ([PushCall(c)] + rest)[1..] == rest;
        case Advance =>
          if m.ring.head != m.ring.tail {
            TailContents(m.ring);
          }
          if m.reader.Holding? || (m.reader.Idle? && m.ring.head == m.ring.tail) {
            assert Linearized(m, events) == [PopCall] + rest;
            assert ([PopCall] + rest)[1..] == rest;
          } else {
            assert Linearized(m, events) == rest;
            assert [] + Run(next, events[1..]).1 == Run(next, events[1..]).1;
          }
      }
    }
  }

  function StoredKeys(out: seq<Output>): seq<Byte> {
    if out == [] then [] else (if out[0].Stored? then [out[0].c] else []) + StoredKeys(out[1..])
  }

  /** The characters returned, without the zeros that stand for "none". */
  function ReturnedKeys(out: seq<Output>): seq<Byte> {
    if out == [] then [] else (if out[0].Returned? && out[0].c != 0 then [out[0].c] else []) + ReturnedKeys(out[1..])
  }

  lemma {:induction false} SequentialConserves(q: seq<Byte>, calls: seq<Call>)
    requires |q| <= CAPACITY && 0 !in q && PushCall(0) !in calls
    ensures var (last, out) := RunSequential(q, calls);
            q + StoredKeys(out) == ReturnedKeys(out) + last
    decreases |calls|
  {
    if calls != [] {
      var (next, o) := Sequential(q, calls[0]);
      var (last, rest) := RunSequential(next, calls[1..]);
      assert 0 !in next;
      SequentialConserves(next, calls[1..]);
      var out := [o] + rest;
      assert out[1..] == rest;
      if o.Stored? {
        assert q + StoredKeys(out) == next + StoredKeys(rest);
        assert ReturnedKeys(out) == ReturnedKeys(rest);
      } else if o.Returned? && o.c != 0 {
        assert q == [o.c] + next;
        assert q + StoredKeys(out) == [o.c] + (next + StoredKeys(rest));
        assert ReturnedKeys(out) + last == [o.c] + (ReturnedKeys(rest) + last);
      } else {
        assert StoredKeys(out) == StoredKeys(rest) && ReturnedKeys(out) == ReturnedKeys(rest);
      }
    }
  }

  lemma {:induction false} NoZeroCalls(m: Machine, events: seq<Event>)
    requires Consistent(m) && Press(0) !in events
    ensures PushCall(0) !in Linearized(m, events)
    decreases |events|
  {
    if events != [] {
      StepKeeps(m, events[0]);
      NoZeroCalls(Step(m, events[0]).0, events[1..]);
    }
  }

  /**
   Nothing is lost, duplicated, reordered or invented: what was stored is what was returned, in order, and what
   still waits.
   */
  lemma RingConserves(m: Machine, events: seq<Event>)
    requires Consistent(m) && m.ring.Contents() == [] && Press(0) !in events
    ensures var (last, out) := Run(m, events);
            last.ring.Valid() && StoredKeys(out) == ReturnedKeys(out) + last.ring.Contents()
  {
    Linearizable(m, events);
    NoZeroCalls(m, events);
    SequentialConserves([], Linearized(m, events));
    var (last, out) := Run(m, events);
    assert [] + StoredKeys(out) == StoredKeys(out);
  }

  // ----- the static ring

  class Keyboard {
    const buffer: array<Byte>
    var head: nat
    var tail: nat

    ghost predicate Valid()
      reads this
    {
      buffer.Length == RING && head < RING && tail < RING
    }

    ghost function Value(): Ring
      reads this, buffer
    {
      Ring(buffer[..], head, tail)
    }

    constructor ()
      ensures Valid() && fresh(buffer) && Value().Contents() == []
    {
      buffer := new Byte[RING](_ => 0);
      head, tail := 0, 0;
    }

    method KbdPush(c: Byte)
      requires Valid()
      modifies this`head, buffer
      ensures Valid() && Value() == Push(old(Value()), c)
    {
      var next := (head + 1) % 256;
      if next != tail {
        buffer[head] := c;
        head := next;
      }
    }

    /** kbd_pop without an interrupt between its steps. */
    method KbdPop() returns (c: Byte)
      requires Valid()
      modifies this`tail
      ensures Valid() && (Value().Contents(), Returned(c)) == Sequential(old(Value().Contents()), PopCall)
    {
      if head == tail {
        return 0;
      }
      TailContents(Value());
      c := buffer[tail];
      tail := (tail + 1) % 256;
    }

    /** One step of kbd_pop: its test, the read, or the move of the tail. */
    method PopStep(reader: Reader) returns (next: Reader, out: seq<Output>)
      requires Valid()
      modifies this`tail
      ensures Valid() && (Machine(Value(), next), out) == Step(Machine(old(Value()), reader), Advance)
    {
      match reader {
        case Idle =>
          if head == tail {
            next, out := Idle, [Returned(0)];
          } else {
            next, out := Tested, [];
          }
        case Tested =>
          next, out := Holding(buffer[tail]), [];
        case Holding(c) =>
          tail := (tail + 1) % 256;
          next, out := Idle, [Returned(c)];
      }
    }
  }
}
