/** One producer and one consumer share a ring buffer: every load and store of shared memory is a
    step, and the steps of the two interleave in any order. */
module RingSteps {
  import opened Bytes
  import opened RingBuffers

  // Where c4_ringbuf_put_byte is: before it, past the check for room, past the store of the byte.
  datatype Producer = Ready | HasRoom(byte: Byte) | Stored(byte: Byte)

  // Where c4_ringbuf_get_byte is: before it, past the check for a byte, past the load of the byte.
  datatype Consumer = Waiting | HasByte | Loaded(byte: Byte)

  /** produced and consumed are the bytes for which a put or a get has returned true. */
  datatype State = State(data: seq<Byte>, readIndex: nat, writeIndex: nat, producer: Producer, consumer: Consumer,
                         produced: seq<Byte>, consumed: seq<Byte>)

  datatype Step = CheckRoom(byte: Byte) | StoreByte | AdvanceWrite | CheckByte | LoadByte | AdvanceRead

  predicate InRange(s: State) {
    |s.data| > 1 && s.readIndex < |s.data| && s.writeIndex < |s.data|
  }

  // A step that its side is not ready for changes nothing.
  function Apply(s: State, step: Step): State
    requires InRange(s)
  {
    match step
    case CheckRoom(b) =>
      if s.producer.Ready? && Next(|s.data|, s.writeIndex) != s.readIndex then s.(producer := HasRoom(b)) else s
    case StoreByte =>
      if s.producer.HasRoom? then s.(data := s.data[s.writeIndex := s.producer.byte], producer := Stored(s.producer.byte)) else s
    case AdvanceWrite =>
      if s.producer.Stored? then
        s.(writeIndex := Next(|s.data|, s.writeIndex), producer := Ready, produced := s.produced + [s.producer.byte])
      else s
    case CheckByte =>
      if s.consumer.Waiting? && s.readIndex != s.writeIndex then s.(consumer := HasByte) else s
    case LoadByte =>
      if s.consumer.HasByte? then s.(consumer := Loaded(s.data[s.readIndex])) else s
    case AdvanceRead =>
      if s.consumer.Loaded? then
        s.(readIndex := Next(|s.data|, s.readIndex), consumer := Waiting, consumed := s.consumed + [s.consumer.byte])
      else s
  }

  ghost function Run(s: State, steps: seq<Step>): (t: State)
    requires InRange(s)
    ensures InRange(t)
  {
    if steps == [] then s
    else
      var t := Run(s, steps[..|steps| - 1]);
      NextInRange(t, steps[|steps| - 1]);
      Apply(t, steps[|steps| - 1])
  }

  lemma NextInRange(s: State, step: Step)
    requires InRange(s)
    ensures InRange(Apply(s, step)) && |Apply(s, step).data| == |s.data|
  {
  }

  function Initial(data: seq<Byte>): State {
    State(data, 0, 0, Ready, Waiting, [], [])
  }

  // What every step keeps: the slots between the indices hold exactly the bytes produced and not
  // consumed yet, and both sides' checks stay true until they act on them.
  ghost predicate Good(s: State) {
    && InRange(s)
    && s.produced == s.consumed + Queued(s.data, s.readIndex, s.writeIndex)
    && (!s.producer.Ready? ==> Next(|s.data|, s.writeIndex) != s.readIndex)
    && (s.producer.Stored? ==> s.data[s.writeIndex] == s.producer.byte)
    && (!s.consumer.Waiting? ==> s.readIndex != s.writeIndex)
    && (s.consumer.Loaded? ==> s.data[s.readIndex] == s.consumer.byte)
  }

  // Storing a byte overwrites no slot that is still to be read.
  lemma StoreSpares(d: seq<Byte>, r: nat, w: nat, b: Byte)
    requires r < |d| && w < |d|
    ensures Queued(d[w := b], r, w) == Queued(d, r, w)
  {
  }

  lemma CheckKeeps(s: State, step: Step)
    requires Good(s) && (step.CheckRoom? || step.CheckByte? || step.LoadByte?)
    ensures Good(Apply(s, step))
  {
    hide Queued, Next;
  }

  lemma StoreKeeps(s: State)
    requires Good(s) && s.producer.HasRoom?
    ensures Good(Apply(s, StoreByte))
  {
    hide Queued, Next;
    StoreSpares(s.data, s.readIndex, s.writeIndex, s.producer.byte);
  }

  // Moving the write index on: the byte stored is the last one queued.
  lemma {:induction false} PublishKeeps(s: State)
    requires Good(s) && s.producer.Stored?
    ensures Good(Apply(s, AdvanceWrite))
  {
    hide Queued, Next;
    var d, r, w := s.data, s.readIndex, s.writeIndex;
    RoomToPut(|d|, r, w);
    QueuedPut(d, r, w, s.producer.byte);
    assert d[w := s.producer.byte] == d;
    AfterPut(|d|, r, w);
  }

  lemma RoomToPut(size: nat, r: nat, w: nat)
    requires r < size && w < size && Next(size, w) != r
    ensures Used(size, r, w) + 1 < size
  {
    NextIs(size, w);
  }

  // The consumer has no less to read then.
  lemma AfterPut(size: nat, r: nat, w: nat)
    requires 1 < size && r < size && w < size && Next(size, w) != r
    ensures Next(size, w) < size
    ensures r != w ==> r != Next(size, w)
  {
  }

  // Moving the read index on: the byte loaded was the first one queued.
  lemma {:induction false} ConsumeKeeps(s: State)
    requires Good(s) && s.consumer.Loaded?
    ensures Good(Apply(s, AdvanceRead))
  {
    hide Queued, Next;
    var d, r, w := s.data, s.readIndex, s.writeIndex;
    QueuedGet(d, r, w);
    AfterGet(|d|, r, w);
    assert s.consumed + ([d[r]] + Queued(d, Next(|d|, r), w)) == (s.consumed + [d[r]]) + Queued(d, Next(|d|, r), w);
  }

  // The producer has no less room then.
  lemma AfterGet(size: nat, r: nat, w: nat)
    requires 1 < size && r < size && w < size && r != w
    ensures Next(size, w) != Next(size, r)
  {
    NextIs(size, r);
    NextIs(size, w);
  }

  lemma Enabled(s: State, step: Step)
    requires InRange(s) && Apply(s, step) != s
    ensures step.StoreByte? ==> s.producer.HasRoom?
    ensures step.AdvanceWrite? ==> s.producer.Stored?
    ensures step.AdvanceRead? ==> s.consumer.Loaded?
  {
    hide Next;
  }

  lemma {:induction false} StepKeeps(s: State, step: Step)
    requires Good(s)
    ensures Good(Apply(s, step))
  {
    GoodInRange(s);
    hide Good, Apply;
    if Apply(s, step) != s {
      match step
      case StoreByte => Enabled(s, step); StoreKeeps(s);
      case AdvanceWrite => Enabled(s, step); PublishKeeps(s);
      case AdvanceRead => Enabled(s, step); ConsumeKeeps(s);
      case _ => CheckKeeps(s, step);
    }
  }

  lemma GoodInRange(s: State)
    requires Good(s)
    ensures InRange(s)
  {
  }

  lemma {:induction false} RunKeeps(s: State, steps: seq<Step>)
    requires Good(s)
    ensures Good(Run(s, steps)) && |Run(s, steps).data| == |s.data|
  {
    if steps != [] {
      var before := steps[..|steps| - 1];
      RunKeeps(s, before);
      GoodInRange(Run(s, before));
      hide Good, Apply, InRange;
      StepKeeps(Run(s, before), steps[|steps| - 1]);
      NextInRange(Run(s, before), steps[|steps| - 1]);
    }
  }

  // In every interleaving the bytes consumed are a prefix of the bytes produced, and fewer than
  // the size are in between.
  lemma {:induction false} Safe(data: seq<Byte>, steps: seq<Step>)
    requires |data| > 1
    ensures var t := Run(Initial(data), steps);
            t.consumed <= t.produced && |t.produced| - |t.consumed| <= |data| - 1
  {
    RunKeeps(Initial(data), steps);
    var t := Run(Initial(data), steps);
    QueuedLength(t.data, t.readIndex, t.writeIndex);
  }
}
