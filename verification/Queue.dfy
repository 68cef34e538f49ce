/** The frame queue between the receive interrupt and the main loop in
    firmware/common/update.c: a ring of 64 with free-running u32 counters. */
module Queue {
  import opened Bytes
  import opened Options

  const LENGTH := 64
  const WRAP := 0x1_0000_0000

  /** How far `update_enqueue` has come with a frame. */
  datatype Producer<T> = Ready | Admitted(frame: T) | Stored(frame: T)

  /** How far the loop of `update_poll` has come. */
  datatype Consumer<T> = Waiting | NotEmpty | Copied(frame: T)

  datatype Ring<T> = Ring(slots: seq<T>, head: u32, tail: u32, producer: Producer<T>, consumer: Consumer<T>)

  /** What either side may do next; every access to shared memory is a step of its own. */
  datatype Step<T> = Offer(frame: T) | Store | Publish | Look | Copy | Release

  /** The slot that a counter points at. */
  function Place(n: nat): (p: nat)
    ensures p < LENGTH
  {
    n % LENGTH
  }

  predicate Enabled<T>(q: Ring<T>, step: Step<T>) {
    match step
    case Offer(_) => q.producer.Ready?
    case Store => q.producer.Admitted?
    case Publish => q.producer.Stored?
    case Look => q.consumer.Waiting?
    case Copy => q.consumer.NotEmpty?
    case Release => q.consumer.Copied?
  }

  function Do<T>(q: Ring<T>, step: Step<T>): Ring<T>
    requires |q.slots| == LENGTH && Enabled(q, step)
  {
    match step
    case Offer(f) => if (q.head - q.tail) % WRAP < LENGTH then q.(producer := Admitted(f)) else q
    case Store => q.(slots := q.slots[Place(q.head) := q.producer.frame], producer := Stored(q.producer.frame))
    case Publish => q.(head := (q.head + 1) % WRAP, producer := Ready)
    case Look => if q.tail != q.head then q.(consumer := NotEmpty) else q
    case Copy => q.(consumer := Copied(q.slots[Place(q.tail)]))
    case Release => q.(tail := (q.tail + 1) % WRAP, consumer := Waiting)
  }

  function Count<T>(q: Ring<T>): nat {
    (q.head - q.tail) % WRAP
  }

  predicate Inv<T(==)>(q: Ring<T>) {
    && |q.slots| == LENGTH && Count(q) <= LENGTH
    && (!q.producer.Ready? ==> Count(q) < LENGTH)
    && (q.producer.Stored? ==> q.slots[Place(q.head)] == q.producer.frame)
    && (!q.consumer.Waiting? ==> Count(q) > 0)
    && (q.consumer.Copied? ==> q.slots[Place(q.tail)] == q.consumer.frame)
  }

  /** The frames that are published and not yet released, oldest first. */
  function Contents<T>(q: Ring<T>): seq<T>
    requires |q.slots| == LENGTH
  {
    seq(Count(q), i requires 0 <= i => q.slots[Place(q.tail + i)])
  }

  /** A counter that wraps stays in step with the ring, whose length divides 2^32. */
  lemma WrapKeepsPlace(n: nat)
    requires n < 2 * WRAP
    ensures Place(n % WRAP) == Place(n)
  {
    assert n % WRAP == n || n % WRAP == n - WRAP;
  }

  lemma HeadPlace<T>(q: Ring<T>)
    requires Count(q) <= LENGTH
    ensures Place(q.head) == Place(q.tail + Count(q))
  {
    assert q.head == (q.tail + Count(q)) % WRAP;
    WrapKeepsPlace(q.tail + Count(q));
  }

  lemma DistinctPlaces(n: nat, i: nat, j: nat)
    requires i < j < LENGTH
    ensures Place(n + i) != Place(n + j)
  {
  }

  /** What one step does to the abstract queue: Publish appends the frame in the producer's
      hands, Release takes the first one, which is the one in the consumer's hands, and every
      other step leaves the queue alone. */
  lemma StepRefines<T>(q: Ring<T>, step: Step<T>)
    requires Inv(q) && Enabled(q, step)
    ensures Inv(Do(q, step))
    ensures match step
      case Publish => |Contents(q)| < 64 && Contents(Do(q, step)) == Contents(q) + [q.producer.frame]
      case Release => |Contents(q)| > 0 && q.consumer.frame == Contents(q)[0] && Contents(Do(q, step)) == Contents(q)[1..]
      case _ => Contents(Do(q, step)) == Contents(q)
    ensures step.Offer? ==> (Do(q, step).producer.Admitted? <==> |Contents(q)| < 64)
  {
    HeadPlace(q);
    match step {
      case Store => StoreKeepsContents(q);
      case Publish =>
        PublishCounts(q);
        assert Contents(Do(q, step)) == Contents(q) + [q.producer.frame];
      case Release =>
        ReleaseCounts(q);
        ReleaseShifts(q);
      case _ =>
    }
  }

  lemma StoreKeepsContents<T>(q: Ring<T>)
    requires Inv(q) && q.producer.Admitted?
    ensures Inv(Do(q, Store)) && Contents(Do(q, Store)) == Contents(q)
  {
    hide Place;
    HeadPlace(q);
    var q' := Do(q, Store);
    forall i | 0 <= i < Count(q)
      ensures Contents(q')[i] == Contents(q)[i]
    {
      DistinctPlaces(q.tail, i, Count(q));
    }
    if q.consumer.Copied? {
      DistinctPlaces(q.tail, 0, Count(q));
    }
  }

  lemma PublishCounts<T>(q: Ring<T>)
    requires Inv(q) && q.producer.Stored?
    ensures Count(Do(q, Publish)) == Count(q) + 1
  {
  }

  lemma ReleaseCounts<T>(q: Ring<T>)
    requires Inv(q) && q.consumer.Copied?
    ensures Count(Do(q, Release)) == Count(q) - 1
  {
  }

  lemma ReleaseShifts<T>(q: Ring<T>)
    requires Inv(q) && q.consumer.Copied?
    ensures |Contents(q)| > 0 && q.consumer.frame == Contents(q)[0] && Contents(Do(q, Release)) == Contents(q)[1..]
  {
    hide Place, Count;
    ReleaseCounts(q);
    var q' := Do(q, Release);
    assert Contents(q)[0] == q.slots[Place(q.tail + 0)];
    forall i | 0 <= i < |Contents(q')|
      ensures Contents(q')[i] == Contents(q)[1..][i]
    {
      PlaceAfterWrap(q.tail, i);
      assert Contents(q)[i + 1] == q.slots[Place(q.tail + (i + 1))];
    }
  }

  lemma PlaceAfterWrap(n: u32, i: nat)
    ensures Place((n + 1) % WRAP + i) == Place(n + (i + 1))
  {
    assert (n + 1) % WRAP == n + 1 || (n + 1) % WRAP == n + 1 - WRAP;
  }

  // ----- every interleaving -----

  datatype Run<T> = Run(ring: Ring<T>, accepted: seq<T>, delivered: seq<T>)

  /** One step of a run, with what has been accepted from the bus and delivered to the handler
      so far. A step that is not enabled does nothing. */
  function Next<T>(r: Run<T>, step: Step<T>): Run<T>
    requires |r.ring.slots| == LENGTH
  {
    if !Enabled(r.ring, step) then r else
      Run(Do(r.ring, step),
          if step.Publish? then r.accepted + [r.ring.producer.frame] else r.accepted,
          if step.Release? then r.delivered + [r.ring.consumer.frame] else r.delivered)
  }

  function Execute<T>(r: Run<T>, steps: seq<Step<T>>): (r': Run<T>)
    requires |r.ring.slots| == LENGTH
    ensures |r'.ring.slots| == LENGTH
  {
    if steps == [] then r else Next(Execute(r, steps[..|steps| - 1]), steps[|steps| - 1])
  }

  /** `update_init` empties the queue. The counters may start anywhere, so this also covers
      the moment at which they wrap. */
  function Empty<T>(slots: seq<T>, start: u32): Ring<T> {
    Ring(slots, start, start, Ready, Waiting)
  }

  /** However the steps of the interrupt and of the main loop fall, the frames handled and the
      frames waiting are exactly those accepted, in order: none is lost, doubled or
      overwritten. */
  lemma {:induction false} NothingLost<T>(slots: seq<T>, start: u32, steps: seq<Step<T>>)
    requires |slots| == LENGTH
    ensures var r := Execute(Run(Empty(slots, start), [], []), steps);
            Inv(r.ring) && r.accepted == r.delivered + Contents(r.ring)
  {
    hide Inv, Contents, Do;
    var first := Run(Empty(slots, start), [], []);
    if steps == [] {
      EmptyIsEmpty(slots, start);
    } else {
      var r, step := Execute(first, steps[..|steps| - 1]), steps[|steps| - 1];
      NothingLost(slots, start, steps[..|steps| - 1]);
      if Enabled(r.ring, step) {
        StepRefines(r.ring, step);
        if step.Release? {
          var c := Contents(r.ring);
          assert r.delivered + c == (r.delivered + [c[0]]) + c[1..];
        }
      }
    }
  }

  lemma EmptyIsEmpty<T>(slots: seq<T>, start: u32)
    requires |slots| == LENGTH
    ensures Inv(Empty(slots, start)) && Contents(Empty(slots, start)) == []
  {
  }

  // ----- the code -----

  class FrameQueue<T(0)> {
    const slots: array<T>
    var head: u32
    var tail: u32

    ghost predicate Valid()
      reads this, slots
    {
      slots.Length == LENGTH && Inv(Abs())
    }

    /** The ring between two calls. */
    ghost function Abs(): Ring<T>
      reads this, slots
    {
      Ring(slots[..], head, tail, Ready, Waiting)
    }

    constructor ()
      ensures Valid() && Contents(Abs()) == [] && fresh(slots)
    {
      slots := new T[LENGTH];
      head, tail := 0, 0;
    }

    /** The queue part of `update_enqueue`, run without interruption. */
    method Enqueue(frame: T) returns (stored: bool)
      requires Valid()
      modifies this`head, slots
      ensures Valid() && stored == (old(|Contents(Abs())|) < 64)
      ensures Contents(Abs()) == if stored then old(Contents(Abs())) + [frame] else old(Contents(Abs()))
    {
      stored := (head - tail) % WRAP < LENGTH;
      if stored {
        ghost var q := Abs();
        ghost var admitted := Do(q, Offer(frame));
        ghost var written := Do(admitted, Store);
        StepRefines(q, Offer(frame));
        StepRefines(admitted, Store);
        StepRefines(written, Publish);
        slots[Place(head)] := frame;
        head := (head + 1) % WRAP;
        assert Abs() == Do(written, Publish);
      }
    }

    /** One turn of the loop of `update_poll`. */
    method Take() returns (frame: Option<T>)
      requires Valid()
      modifies this`tail
      ensures Valid() && frame.None? == (old(Contents(Abs())) == [])
      ensures frame.Some? ==> old(Contents(Abs())) == [frame.value] + Contents(Abs())
      ensures frame.None? ==> Contents(Abs()) == []
    {
      if tail == head {
        return None;
      }
      ghost var q := Abs();
      ghost var seen := Do(q, Look);
      ghost var copied := Do(seen, Copy);
      StepRefines(q, Look);
      StepRefines(seen, Copy);
      StepRefines(copied, Release);
      frame := Some(slots[Place(tail)]);
      tail := (tail + 1) % WRAP;
      assert Abs() == Do(copied, Release);
    }
  }
}
