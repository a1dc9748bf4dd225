/** The scancode ring between the keyboard interrupt and the main loop, as interleaved atomic
    steps of one producer and one consumer, over every schedule. */
module KeyRing {
  import opened Bytes

  const SIZE: nat := 256

  /** Where the producer is in `push(item)`, with the HEAD it has loaded. */
  datatype Producer =
    | PIdle
    | PLoaded(item: byte, head: nat)
    | PChecked(item: byte, head: nat)
    | PWritten(item: byte, head: nat)

  /** Where the consumer is in `pop`, with the TAIL it has loaded and the byte it has read. */
  datatype Consumer = CIdle | CLoaded(tail: nat) | CChecked(tail: nat) | CRead(tail: nat, item: byte)

  datatype State = State(buf: seq<byte>, head: nat, tail: nat, producer: Producer, consumer: Consumer)

  /** Atomic steps. A step whose thread is elsewhere does nothing, so any sequence of steps
      is a schedule. */
  datatype Action =
    | LoadHead(item: byte) | CheckTail | WriteSlot | StoreHead
    | LoadTail | CheckHead | ReadSlot | StoreTail

  predicate Wf(s: State) {
    && |s.buf| == SIZE && s.head < SIZE && s.tail < SIZE
    && (!s.producer.PIdle? ==> s.producer.head < SIZE)
    && (!s.consumer.CIdle? ==> s.consumer.tail < SIZE)
  }

  function Next(i: nat): (r: nat)
    ensures r < 256
  {
    (i + 1) % SIZE
  }

  function Step(s: State, a: Action): (r: State)
    requires Wf(s)
    ensures Wf(r)
  {
    match (a, s.producer, s.consumer)
    case (LoadHead(b), PIdle, _) => s.(producer := PLoaded(b, s.head))
    case (CheckTail, PLoaded(b, h), _) => s.(producer := if Next(h) != s.tail then PChecked(b, h) else PIdle)
    case (WriteSlot, PChecked(b, h), _) => s.(buf := s.buf[h := b], producer := PWritten(b, h))
    case (StoreHead, PWritten(b, h), _) => s.(head := Next(h), producer := PIdle)
    case (LoadTail, _, CIdle) => s.(consumer := CLoaded(s.tail))
    case (CheckHead, _, CLoaded(t)) => s.(consumer := if t == s.head then CIdle else CChecked(t))
    case (ReadSlot, _, CChecked(t)) => s.(consumer := CRead(t, s.buf[t]))
    case (StoreTail, _, CRead(t, b)) => s.(tail := Next(t), consumer := CIdle)
    case _ => s
  }

  function Run(s: State, acts: seq<Action>): (r: State)
    requires Wf(s)
    ensures Wf(r)
  {
    if acts == [] then s else Step(Run(s, acts[..|acts| - 1]), acts[|acts| - 1])
  }

  /** Bytes whose push got as far as publishing the new HEAD, in order. */
  function Accepted(s: State, acts: seq<Action>): seq<byte>
    requires Wf(s)
  {
    if acts == [] then []
    else
      var n := |acts| - 1;
      var p := Run(s, acts[..n]).producer;
      Accepted(s, acts[..n]) + if acts[n].StoreHead? && p.PWritten? then [p.item] else []
  }

  /** Bytes returned by completed pops, in order. */
  function Popped(s: State, acts: seq<Action>): seq<byte>
    requires Wf(s)
  {
    if acts == [] then []
    else
      var n := |acts| - 1;
      var c := Run(s, acts[..n]).consumer;
      Popped(s, acts[..n]) + if acts[n].StoreTail? && c.CRead? then [c.item] else []
  }

  function Empty(): State { State(Zeros(256), 0, 0, PIdle, CIdle) }

  // ---- the invariant ----

  /** The ring holds the accepted bytes from number |popped| on. What each thread has
      found out stays true whatever the other one does. */
  ghost predicate Inv(s: State, accepted: seq<byte>, popped: seq<byte>) {
    var a, p := |accepted|, |popped|;
    && Wf(s) && p <= a <= p + 255 && s.head == a % 256 && s.tail == p % 256
    && popped == accepted[..p]
    && (forall k {:trigger accepted[k]} :: p <= k < a ==> s.buf[k % 256] == accepted[k])
    && (match s.producer
        case PIdle => true
        case PLoaded(_, h) => h == s.head
        case PChecked(_, h) => h == s.head && a < p + 255
        case PWritten(b, h) => h == s.head && a < p + 255 && s.buf[h] == b)
    && (match s.consumer
        case CIdle => true
        case CLoaded(t) => t == s.tail
        case CChecked(t) => t == s.tail && p < a
        case CRead(t, b) => t == s.tail && p < a && b == accepted[p])
  }

  lemma NextOf(i: nat)
    ensures Next(i % 256) == (i + 1) % 256
  {
  }

  /** Two counters less than a turn apart share an index only if they are equal. */
  lemma SameIndex(i: nat, j: nat)
    requires i <= j < i + 256 && i % 256 == j % 256
    ensures i == j
  {
  }

  lemma FullIndex(a: nat, p: nat)
    requires p <= a <= p + 255
    ensures (a + 1) % 256 == p % 256 <==> a == p + 255
  {
    if (a + 1) % 256 == p % 256 && a < p + 255 {
      SameIndex(p, a + 1);
    }
  }

  /** The producer's slot holds no byte that is still to be read. */
  lemma SlotIsFree(s: State, accepted: seq<byte>, popped: seq<byte>, k: nat)
    requires Inv(s, accepted, popped) && s.producer.PChecked? && |popped| <= k < |accepted|
    ensures k % 256 != s.producer.head
  {
    if k % 256 == s.producer.head {
      SameIndex(k, |accepted|);
    }
  }

  lemma ProducerStep(s: State, accepted: seq<byte>, popped: seq<byte>, a: Action)
    requires Inv(s, accepted, popped) && (a.LoadHead? || a.CheckTail? || a.WriteSlot?)
    ensures Inv(Step(s, a), accepted, popped)
  {
    if a.CheckTail? && s.producer.PLoaded? {
      NextOf(|accepted|);
      FullIndex(|accepted|, |popped|);
    }
    if a.WriteSlot? && s.producer.PChecked? {
      forall k | |popped| <= k < |accepted| ensures Step(s, a).buf[k % 256] == accepted[k] {
        SlotIsFree(s, accepted, popped, k);
      }
    }
  }

  lemma PublishStep(s: State, accepted: seq<byte>, popped: seq<byte>)
    requires Inv(s, accepted, popped) && s.producer.PWritten?
    ensures Inv(Step(s, StoreHead), accepted + [s.producer.item], popped)
  {
    NextOf(|accepted|);
    var accepted' := accepted + [s.producer.item];
    assert popped == accepted'[..|popped|];
    forall k | |popped| <= k < |accepted'| ensures s.buf[k % 256] == accepted'[k] {
      if k < |accepted| {
        assert accepted'[k] == accepted[k];
      }
    }
  }

  lemma ConsumerStep(s: State, accepted: seq<byte>, popped: seq<byte>, a: Action)
    requires Inv(s, accepted, popped) && (a.LoadTail? || a.CheckHead? || a.ReadSlot?)
    ensures Inv(Step(s, a), accepted, popped)
  {
    if a.ReadSlot? && s.consumer.CChecked? {
      assert s.buf[|popped| % 256] == accepted[|popped|];
    }
  }

  lemma ReleaseStep(s: State, accepted: seq<byte>, popped: seq<byte>)
    requires Inv(s, accepted, popped) && s.consumer.CRead?
    ensures Inv(Step(s, StoreTail), accepted, popped + [s.consumer.item])
  {
    NextOf(|popped|);
    assert popped + [s.consumer.item] == accepted[..|popped| + 1];
  }

  /** Every schedule keeps the invariant. */
  lemma {:induction false} Always(acts: seq<Action>)
    ensures Inv(Run(Empty(), acts), Accepted(Empty(), acts), Popped(Empty(), acts))
  {
    hide Inv, Step;
    if acts == [] {
      StartsEmpty();
    } else {
      var n := |acts| - 1;
      Always(acts[..n]);
      StepKeeps(Run(Empty(), acts[..n]), Accepted(Empty(), acts[..n]), Popped(Empty(), acts[..n]), acts[n]);
    }
  }

  lemma StartsEmpty()
    ensures Inv(Empty(), [], [])
  {
  }

  lemma StepKeeps(s: State, accepted: seq<byte>, popped: seq<byte>, a: Action)
    requires Inv(s, accepted, popped)
    ensures Wf(s)
    ensures Inv(Step(s, a), accepted + (if a.StoreHead? && s.producer.PWritten? then [s.producer.item] else []),
                popped + if a.StoreTail? && s.consumer.CRead? then [s.consumer.item] else [])
  {
    assert accepted + [] == accepted && popped + [] == popped;
    match a
    case StoreHead => if s.producer.PWritten? { PublishStep(s, accepted, popped); }
    case StoreTail => if s.consumer.CRead? { ReleaseStep(s, accepted, popped); }
    case LoadHead(_) => ProducerStep(s, accepted, popped, a);
    case CheckTail => ProducerStep(s, accepted, popped, a);
    case WriteSlot => ProducerStep(s, accepted, popped, a);
    case LoadTail => ConsumerStep(s, accepted, popped, a);
    case CheckHead => ConsumerStep(s, accepted, popped, a);
    case ReadSlot => ConsumerStep(s, accepted, popped, a);
  }

  // ---- what the users of the ring can rely on, for every schedule ----

  /** Bytes come out in the order they went in, none twice, none invented. */
  lemma PoppedIsPrefix(acts: seq<Action>)
    ensures Popped(Empty(), acts) <= Accepted(Empty(), acts)
    ensures |Accepted(Empty(), acts)| - |Popped(Empty(), acts)| <= 255
  {
    Always(acts);
  }

  /** A slot is never written while it still holds an unread byte: the write leaves every
      unread byte where the consumer will look for it. */
  lemma NeverOverwrites(acts: seq<Action>, k: nat)
    requires |Popped(Empty(), acts)| <= k < |Accepted(Empty(), acts)|
    ensures Run(Empty(), acts).buf[k % 256] == Accepted(Empty(), acts)[k]
    ensures Run(Empty(), acts + [WriteSlot]).buf[k % 256] == Accepted(Empty(), acts)[k]
  {
    Always(acts);
    assert (acts + [WriteSlot])[..|acts|] == acts;
    var s := Run(Empty(), acts);
    if s.producer.PChecked? {
      SlotIsFree(s, Accepted(Empty(), acts), Popped(Empty(), acts), k);
    }
  }

  /** A push gives up exactly when 255 bytes are unread at the moment it loads TAIL. */
  lemma DropsOnlyWhenFull(acts: seq<Action>)
    requires Run(Empty(), acts).producer.PLoaded?
    ensures Run(Empty(), acts + [CheckTail]).producer.PIdle? <==>
      |Accepted(Empty(), acts)| - |Popped(Empty(), acts)| == 255
  {
    Always(acts);
    assert (acts + [CheckTail])[..|acts|] == acts;
    var a, p := |Accepted(Empty(), acts)|, |Popped(Empty(), acts)|;
    NextOf(a);
    FullIndex(a, p);
  }

  /** A pop comes back empty-handed exactly when nothing is unread at the moment it loads HEAD. */
  lemma NoneOnlyWhenEmpty(acts: seq<Action>)
    requires Run(Empty(), acts).consumer.CLoaded?
    ensures Run(Empty(), acts + [CheckHead]).consumer.CIdle? <==> Accepted(Empty(), acts) == Popped(Empty(), acts)
  {
    Always(acts);
    assert (acts + [CheckHead])[..|acts|] == acts;
    var a, p := |Accepted(Empty(), acts)|, |Popped(Empty(), acts)|;
    if a % 256 == p % 256 {
      SameIndex(p, a);
    }
  }

  // ---- whole calls, interrupted anywhere ----

  predicate ByConsumer(a: Action) { a.LoadTail? || a.CheckHead? || a.ReadSlot? || a.StoreTail? }

  /** Steps of one thread alone. */
  predicate AllBy(acts: seq<Action>, consumer: bool) {
    forall i {:trigger acts[i]} :: 0 <= i < |acts| ==> ByConsumer(acts[i]) == consumer
  }

  lemma ThenStep(acts: seq<Action>, a: Action)
    ensures var s := Run(Empty(), acts);
      && Run(Empty(), acts + [a]) == Step(s, a)
      && Accepted(Empty(), acts + [a]) ==
         Accepted(Empty(), acts) + (if a.StoreHead? && s.producer.PWritten? then [s.producer.item] else [])
      && Popped(Empty(), acts + [a]) ==
         Popped(Empty(), acts) + (if a.StoreTail? && s.consumer.CRead? then [s.consumer.item] else [])
  {
    assert (acts + [a])[..|acts|] == acts;
  }

  /** Whatever one thread does, the other one stays where it is. */
  lemma {:induction false} ThenOther(acts: seq<Action>, more: seq<Action>, consumer: bool)
    requires AllBy(more, consumer)
    ensures var s, s' := Run(Empty(), acts), Run(Empty(), acts + more);
      if consumer then s'.producer == s.producer && Accepted(Empty(), acts + more) == Accepted(Empty(), acts)
      else s'.consumer == s.consumer && Popped(Empty(), acts + more) == Popped(Empty(), acts)
  {
    hide Run, Accepted, Popped;
    if more == [] {
      assert acts + more == acts;
    } else {
      var n := |more| - 1;
      ThenOther(acts, more[..n], consumer);
      ThenStep(acts + more[..n], more[n]);
      assert acts + more == acts + more[..n] + [more[n]];
      assert more[n] == more[n];
    }
  }

  /** A push by an idle producer, with any steps of the consumer before, between and after
      its four: the byte is taken up if and only if fewer than 255 bytes are unread when
      TAIL is loaded. */
  lemma PushTaken(acts: seq<Action>, b: byte, c1: seq<Action>, c2: seq<Action>, c3: seq<Action>)
    requires Run(Empty(), acts).producer.PIdle? && AllBy(c1, true) && AllBy(c2, true) && AllBy(c3, true)
    ensures var checked := acts + [LoadHead(b)] + c1;
      var all := checked + [CheckTail] + c2 + [WriteSlot] + c3 + [StoreHead];
      && Accepted(Empty(), all) == Accepted(Empty(), acts) +
           (if |Accepted(Empty(), acts)| - |Popped(Empty(), checked)| < 255 then [b] else [])
      && Run(Empty(), all).producer.PIdle?
  {
    hide Run, Accepted, Popped, Inv;
    var loaded := acts + [LoadHead(b)];
    ThenStep(acts, LoadHead(b));
    ThenOther(loaded, c1, true);
    DropsOnlyWhenFull(loaded + c1);
    PoppedIsPrefix(loaded + c1);
    var done := loaded + c1 + [CheckTail];
    ThenStep(loaded + c1, CheckTail);
    ThenOther(done, c2, true);
    ThenStep(done + c2, WriteSlot);
    ThenOther(done + c2 + [WriteSlot], c3, true);
    ThenStep(done + c2 + [WriteSlot] + c3, StoreHead);
  }

  /** A pop by an idle consumer, with any steps of the producer before, between and after
      its four: it takes the oldest unread byte if there is one when HEAD is loaded, and
      nothing otherwise. */
  lemma PopTaken(acts: seq<Action>, p1: seq<Action>, p2: seq<Action>, p3: seq<Action>)
    requires Run(Empty(), acts).consumer.CIdle? && AllBy(p1, false) && AllBy(p2, false) && AllBy(p3, false)
    ensures var checked := acts + [LoadTail] + p1;
      var all := checked + [CheckHead] + p2 + [ReadSlot] + p3 + [StoreTail];
      var n := |Popped(Empty(), acts)|;
      && Popped(Empty(), all) == Popped(Empty(), acts) +
           (if n < |Accepted(Empty(), checked)| then [Accepted(Empty(), checked)[n]] else [])
      && Run(Empty(), all).consumer.CIdle?
  {
    hide Run, Accepted, Popped, Inv;
    var loaded := acts + [LoadTail];
    ThenStep(acts, LoadTail);
    ThenOther(loaded, p1, false);
    NoneOnlyWhenEmpty(loaded + p1);
    PoppedIsPrefix(loaded + p1);
    var done := loaded + p1 + [CheckHead];
    ThenStep(loaded + p1, CheckHead);
    ThenOther(done, p2, false);
    ThenStep(done + p2, ReadSlot);
    ThenOther(done + p2 + [ReadSlot], p3, false);
    var last := done + p2 + [ReadSlot] + p3;
    ThenStep(last, StoreTail);
    if Run(Empty(), last).consumer.CRead? {
      PopsOldest(last);
      StillAccepted(loaded + p1, [CheckHead] + p2 + [ReadSlot] + p3);
      assert loaded + p1 + ([CheckHead] + p2 + [ReadSlot] + p3) == last;
    }
  }

  /** Accepted bytes stay accepted. */
  lemma {:induction false} StillAccepted(acts: seq<Action>, more: seq<Action>)
    ensures Accepted(Empty(), acts) <= Accepted(Empty(), acts + more)
  {
    if more == [] {
      assert acts + more == acts;
    } else {
      var n := |more| - 1;
      StillAccepted(acts, more[..n]);
      ThenStep(acts + more[..n], more[n]);
      assert acts + more == acts + more[..n] + [more[n]];
    }
  }

  /** The byte a pop has read is still the oldest unread one when the pop completes,
      however the producer's steps fall in between. */
  lemma PopsOldest(acts: seq<Action>)
    requires Run(Empty(), acts).consumer.CRead?
    ensures |Popped(Empty(), acts)| < |Accepted(Empty(), acts)|
    ensures Run(Empty(), acts).consumer.item == Accepted(Empty(), acts)[|Popped(Empty(), acts)|]
  {
    Always(acts);
  }

  // ---- the ring as a queue ----

  /** Number of unread bytes, and the index of the i-th of them. */
  function Count(head: nat, tail: nat): int { if head >= tail then head - tail else head + 256 - tail }

  function Slot(tail: nat, i: nat): nat { if tail + i >= 256 then tail + i - 256 else tail + i }

  /** The bytes from index `tail` up to index `head`, around the end. */
  ghost function Unread(buf: seq<byte>, head: nat, tail: nat): (r: seq<byte>)
    requires |buf| == 256 && head < 256 && tail < 256
    ensures |r| == Count(head, tail) <= 255
  {
    seq(Count(head, tail), i requires 0 <= i < 256 => buf[Slot(tail, i)])
  }

  /** At every moment of every schedule the ring denotes the bytes accepted and not yet popped. */
  lemma RingIsQueue(acts: seq<Action>)
    ensures Popped(Empty(), acts) + Unread(Run(Empty(), acts).buf, Run(Empty(), acts).head, Run(Empty(), acts).tail) ==
      Accepted(Empty(), acts)
  {
    Always(acts);
    UnreadBytes(Run(Empty(), acts), Accepted(Empty(), acts), Popped(Empty(), acts));
  }

  lemma UnreadBytes(s: State, accepted: seq<byte>, popped: seq<byte>)
    requires Inv(s, accepted, popped)
    ensures Unread(s.buf, s.head, s.tail) == accepted[|popped|..]
  {
    var a, p := |accepted|, |popped|;
    UnreadCount(a, p);
    var u := Unread(s.buf, s.head, s.tail);
    forall i | 0 <= i < a - p ensures u[i] == accepted[p + i] {
      WrapIndex(p, i);
      assert s.buf[(p + i) % 256] == accepted[p + i];
    }
  }

  lemma UnreadCount(a: nat, p: nat)
    requires p <= a <= p + 255
    ensures Count(a % 256, p % 256) == a - p
  {
  }

  lemma WrapIndex(p: nat, i: nat)
    requires i < 256
    ensures Slot(p % 256, i) == (p + i) % 256
  {
  }

  lemma UnreadPushed(buf: seq<byte>, head: nat, tail: nat, b: byte)
    requires |buf| == 256 && head < 256 && tail < 256
    ensures Next(head) == tail <==> |Unread(buf, head, tail)| == 255
    ensures Next(head) != tail ==> Unread(buf[head := b], Next(head), tail) == Unread(buf, head, tail) + [b]
  {
    assert Next(head) == if head == 255 then 0 else head + 1;
  }

  lemma UnreadPopped(buf: seq<byte>, head: nat, tail: nat)
    requires |buf| == 256 && head < 256 && tail < 256 && head != tail
    ensures Unread(buf, head, tail) == [buf[tail]] + Unread(buf, head, Next(tail))
  {
    assert Next(tail) == if tail == 255 then 0 else tail + 1;
  }

  // ---- uninterrupted calls ----

  function PushSteps(b: byte): seq<Action> { [LoadHead(b), CheckTail, WriteSlot, StoreHead] }

  function PopSteps(): seq<Action> { [LoadTail, CheckHead, ReadSlot, StoreTail] }

  /** Uninterrupted, whatever the other thread is in the middle of: a push takes its byte up
      if and only if fewer than 255 are unread, a pop the oldest byte if there is one. */
  lemma WholeCalls(acts: seq<Action>, b: byte)
    ensures var a, p := Accepted(Empty(), acts), Popped(Empty(), acts);
      && (Run(Empty(), acts).producer.PIdle? ==>
            Accepted(Empty(), acts + PushSteps(b)) == a + if |a| - |p| < 255 then [b] else [])
      && (Run(Empty(), acts).consumer.CIdle? ==>
            Popped(Empty(), acts + PopSteps()) == p + if |p| < |a| then [a[|p|]] else [])
  {
    hide Step, Accepted, Popped, Run;
    if Run(Empty(), acts).producer.PIdle? {
      PushTaken(acts, b, [], [], []);
      ThenStep(acts, LoadHead(b));
      assert acts + [LoadHead(b)] + [] == acts + [LoadHead(b)];
      assert acts + [LoadHead(b)] + [] + [CheckTail] + [] + [WriteSlot] + [] + [StoreHead] == acts + PushSteps(b);
    }
    if Run(Empty(), acts).consumer.CIdle? {
      PopTaken(acts, [], [], []);
      ThenStep(acts, LoadTail);
      assert acts + [LoadTail] + [] == acts + [LoadTail];
      assert acts + [LoadTail] + [] + [CheckHead] + [] + [ReadSlot] + [] + [StoreTail] == acts + PopSteps();
    }
  }

  lemma RunFour(s: State, a: Action, b: Action, c: Action, d: Action)
    requires Wf(s)
    ensures Run(s, [a, b, c, d]) == Step(Step(Step(Step(s, a), b), c), d)
  {
    hide Step;
    assert [a, b, c, d][..3] == [a, b, c] && [a, b, c][..2] == [a, b] && [a, b][..1] == [a] && [a][..0] == [];
    assert Run(s, []) == s;
    assert Run(s, [a]) == Step(s, a);
    assert Run(s, [a, b]) == Step(Step(s, a), b);
    assert Run(s, [a, b, c]) == Step(Step(Step(s, a), b), c);
  }

  /** The ring as the code keeps it. */
  class Ring {
    const buffer: array<byte>
    var head: nat
    var tail: nat

    ghost predicate Valid()
      reads this
    {
      buffer.Length == 256 && head < 256 && tail < 256
    }

    ghost function View(): (s: State)
      requires Valid()
      reads this, buffer
      ensures Wf(s)
    {
      State(buffer[..], head, tail, PIdle, CIdle)
    }

    /** The unread bytes. */
    ghost function Contents(): (r: seq<byte>)
      requires Valid()
      reads this, buffer
      ensures |r| <= 255
    {
      Unread(buffer[..], head, tail)
    }

    constructor ()
      ensures Valid() && fresh(buffer) && Contents() == [] && View() == Empty()
    {
      buffer := new byte[256](_ => 0);
      head, tail := 0, 0;
    }

    /** Adds a byte, or drops it if 255 are waiting. */
    method Push(b: byte)
      requires Valid()
      modifies this`head, buffer
      ensures Valid() && View() == Run(old(View()), PushSteps(b))
      ensures Contents() == if |old(Contents())| < 255 then old(Contents()) + [b] else old(Contents())
    {
      RunFour(View(), LoadHead(b), CheckTail, WriteSlot, StoreHead);
      UnreadPushed(buffer[..], head, tail, b);
      ghost var before := buffer[..];
      var h := head;
      var next := (h + 1) % SIZE;
      if next != tail {
        buffer[h] := b;
        head := next;
        assert buffer[..] == before[h := b];
      }
    }

    /** Takes the oldest byte, if there is one. */
    method Pop() returns (r: Option<byte>)
      requires Valid()
      modifies this`tail
      ensures Valid() && View() == Run(old(View()), PopSteps())
      ensures old(Contents()) == if r.Some? then [r.value] + Contents() else []
      ensures r.None? ==> Contents() == []
    {
      RunFour(View(), LoadTail, CheckHead, ReadSlot, StoreTail);
      var t := tail;
      if t == head {
        return None;
      }
      UnreadPopped(buffer[..], head, tail);
      var b := buffer[t];
      tail := (t + 1) % SIZE;
      r := Some(b);
    }
  }
}
