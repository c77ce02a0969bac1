/** The event-driven simulation of COIS2020A2/Program.cs: events ordered by
    time in a `PriorityQueue<Event>`, the doctor search, and the loop of
    `RunSimulation` that drains the event queue. */
module Simulation {
  import opened Wrappers
  import opened PriorityQueues

  /** The COIS2020A2 `Patient`: set once by its constructor, never updated. */
  datatype PatientRecord = PatientRecord(patientNumber: int, emergencyLevel: int, treatmentTime: real)

  datatype EventType = Arrival | Departure

  /** An `Event`. The source updates the `Type`, `Time` and `DoctorAssigned` of
      an event object that it has just taken out of the queue and that nothing
      else refers to; here that update builds the new value. */
  datatype Event = Event(patient: PatientRecord, kind: EventType, time: real, doctorAssigned: int)
  {
    /** `Time.CompareTo(other?.Time ?? 0)`: the sign of the difference between
        this event's time and the other's (0 when there is no other event). */
    function CompareTo(other: Option<Event>): (r: int)
      ensures -1 <= r <= 1
      ensures r < 0 <==> time < OtherTime(other)
      ensures r == 0 <==> time == OtherTime(other)
      ensures r > 0 <==> time > OtherTime(other)
    {
      var t := OtherTime(other);
      if time < t then -1 else if time == t then 0 else 1
    }
  }

  function OtherTime(other: Option<Event>): (r: real)
  {
    if other.Some? then other.value.time else 0.0
  }

  /** The key by which the event queue is ordered. */
  function EventTime(e: Event): (r: real)
  {
    e.time
  }

  /** The comparisons the heap makes agree with `Event.CompareTo`. */
  lemma CompareToMatchesKey(a: Event, b: Event)
    ensures a.CompareTo(Some(b)) < 0 <==> EventTime(a) < EventTime(b)
    ensures a.CompareTo(Some(b)) >= 0 <==> EventTime(a) >= EventTime(b)
    ensures a.CompareTo(Some(b)) <= 0 <==> EventTime(a) <= EventTime(b)
  {
  }

  /** An event re-enqueued as the departure of its patient from `doctor`. */
  function Seat(e: Event, doctor: int, start: real): (d: Event)
    ensures d.patient == e.patient && d.kind == Departure && d.doctorAssigned == doctor
    ensures d.time - start == e.patient.treatmentTime
  {
    e.(kind := Departure, doctorAssigned := doctor, time := start + e.patient.treatmentTime)
  }

  /** Each arrival of `s` turned into its departure: doctor `doctor`, at its
      arrival time plus its treatment time. */
  function SeatAll(s: seq<Event>, doctor: int): (r: seq<Event>)
    ensures |r| == |s|
  {
    if s == [] then [] else [Seat(s[0], doctor, s[0].time)] + SeatAll(s[1..], doctor)
  }

  lemma {:induction false} SeatAllAppend(a: seq<Event>, b: seq<Event>, doctor: int)
    ensures SeatAll(a + b, doctor) == SeatAll(a, doctor) + SeatAll(b, doctor)
    decreases |a|
  {
    if a == [] {
      assert a + b == b;
    } else {
      assert (a + b)[1..] == a[1..] + b;
      SeatAllAppend(a[1..], b, doctor);
    }
  }

  /** Seating a sequence with one element taken out of its middle. */
  lemma SeatAllMiddle(before: seq<Event>, x: Event, after: seq<Event>, doctor: int)
    ensures multiset(SeatAll(before + [x] + after, doctor))
         == multiset{Seat(x, doctor, x.time)} + multiset(SeatAll(before + after, doctor))
  {
    var y := Seat(x, doctor, x.time);
    SeatAllAppend(before + [x], after, doctor);
    SeatAllAppend(before, [x], doctor);
    SeatAllAppend(before, after, doctor);
    assert SeatAll([x], doctor) == [y];
    assert SeatAll(before + [x] + after, doctor) == SeatAll(before, doctor) + [y] + SeatAll(after, doctor);
  }

  /** Taking the element at index `j` out of `t`, before and after seating. */
  lemma TakeOut(t: seq<Event>, j: int, doctor: int)
    requires 0 <= j < |t|
    ensures multiset(t[..j] + t[j + 1..]) == multiset(t) - multiset{t[j]}
    ensures multiset(SeatAll(t, doctor))
         == multiset{Seat(t[j], doctor, t[j].time)} + multiset(SeatAll(t[..j] + t[j + 1..], doctor))
  {
    var before, after := t[..j], t[j + 1..];
    assert t == before + [t[j]] + after;
    assert multiset(t) == multiset(before) + multiset{t[j]} + multiset(after);
    SeatAllMiddle(before, t[j], after, doctor);
  }

  /** Seating two orderings of the same arrivals gives two orderings of the
      same departures. */
  lemma {:induction false} SeatAllPermutation(s: seq<Event>, t: seq<Event>, doctor: int)
    requires multiset(s) == multiset(t)
    ensures multiset(SeatAll(s, doctor)) == multiset(SeatAll(t, doctor))
    decreases |s|
  {
    if s == [] {
      assert |t| == |multiset(t)| == 0;
    } else {
      var x := s[0];
      assert x in multiset(t);
      var j :| 0 <= j < |t| && t[j] == x;
      TakeOut(t, j, doctor);
      assert s == [x] + s[1..];
      assert multiset(s[1..]) == multiset(s) - multiset{x};
      SeatAllPermutation(s[1..], t[..j] + t[j + 1..], doctor);
      assert SeatAll(s, doctor) == [Seat(x, doctor, x.time)] + SeatAll(s[1..], doctor);
    }
  }

  ghost predicate AllOfKind(m: multiset<Event>, k: EventType)
  {
    forall e :: e in m ==> e.kind == k
  }

  /** The emergency levels index the three waiting queues. */
  ghost predicate LevelsInRange(m: multiset<Event>)
  {
    forall e :: e in m ==> 1 <= e.patient.emergencyLevel <= 3
  }

  ghost predicate WaitingLevelsInRange(w: seq<seq<Event>>)
  {
    forall l, i :: 0 <= l < |w| && 0 <= i < |w[l]| ==> 1 <= w[l][i].patient.emergencyLevel <= 3
  }

  ghost predicate NonNegativeTreatments(m: multiset<Event>)
  {
    forall e :: e in m ==> e.patient.treatmentTime >= 0.0
  }

  ghost predicate WaitingNonNegative(w: seq<seq<Event>>)
  {
    forall l, i :: 0 <= l < |w| && 0 <= i < |w[l]| ==> w[l][i].patient.treatmentTime >= 0.0
  }

  /** Events processed in order of non-decreasing time. */
  ghost predicate TimeOrdered(log: seq<Event>)
  {
    forall i, j :: 0 <= i < j < |log| ==> log[i].time <= log[j].time
  }

  ghost predicate IsSuffix(a: seq<Event>, b: seq<Event>)
  {
    |a| <= |b| && a == b[|b| - |a|..]
  }

  /** The number of events waiting in the three queues. */
  function WaitingTotal(w: seq<seq<Event>>): (r: nat)
    requires |w| == 3
  {
    |w[0]| + |w[1]| + |w[2]|
  }

  function Abs(x: int): (r: nat)
  {
    if x >= 0 then x else -x
  }

  lemma SmallRemainder(a: nat, m: nat)
    ensures 0 < m && a < m ==> a % m == a
  {
  }

  /** Division of a natural number: quotient times divisor plus remainder. */
  lemma Divided(a: nat, m: nat)
    requires 0 < m
    ensures a == (a / m) * m + a % m
  {
  }

  /** The quotient of the division of `a` by `b` truncated toward zero, for
      the quotient `k` and remainder `r` of their magnitudes. */
  lemma TruncatedQuotient(a: int, b: int, k: int, r: int)
    requires b != 0 && Abs(a) == k * Abs(b) + r
    ensures a == (if (a >= 0) == (b > 0) then k else -k) * b + (if a >= 0 then r else -r)
  {
    if a >= 0 && b > 0 {
    } else if a >= 0 {
      assert Abs(b) == -b;
      assert (-k) * b == k * (-b);
    } else if b > 0 {
      assert Abs(a) == -a;
    } else {
      assert Abs(a) == -a && Abs(b) == -b;
      assert k * b == -(k * (-b));
    }
  }

  /** The least value of a C# `int`. */
  const IntMin: int := -0x8000_0000

  /** C#'s `%`: the remainder of the division truncated toward zero, so it
      has the sign of `a`, and `a` is a multiple of `b` plus it. */
  function TruncRem(a: int, b: int): (r: int)
    requires b != 0
    ensures Abs(r) < Abs(b)
    ensures a >= 0 ==> r >= 0
    ensures a < 0 ==> r <= 0
    ensures Abs(a) < Abs(b) ==> r == a
    ensures exists q: int :: a == q * b + r
  {
    SmallRemainder(Abs(a), Abs(b));
    Divided(Abs(a), Abs(b));
    var k, r := Abs(a) / Abs(b), Abs(a) % Abs(b);
    TruncatedQuotient(a, b, k, r);
    var q := if (a >= 0) == (b > 0) then k else -k;
    assert a == q * b + (if a >= 0 then r else -r);
    if a >= 0 then r else -r
  }

  /** The bookkeeping of the drain loop: the queue's contents, the waiting
      queues, the arrivals and departures still queued, the events processed so
      far and the arrivals seated so far. */
  datatype Books = Books(origin: Origin, queue: multiset<Event>, waiting: seq<seq<Event>>,
                         arrivals: multiset<Event>, departures: multiset<Event>,
                         log: seq<Event>, seated: seq<Event>)

  /** How a drain started: the arrivals and departures queued, the waiting
      queues, and whether all treatment times were non-negative. */
  datatype Origin = Origin(pending: multiset<Event>, started: multiset<Event>,
                           initial: seq<seq<Event>>, ordered: bool)

  /** Where the drain loop's events are: every queued event is an arrival not
      yet seated or a departure, and every level indexes a waiting queue. */
  ghost predicate Placed(b: Books)
  {
    && |b.waiting| == 3
    && b.queue == b.arrivals + b.departures
    && AllOfKind(b.arrivals, Arrival) && AllOfKind(b.departures, Departure)
    && LevelsInRange(b.queue) && WaitingLevelsInRange(b.waiting)
  }

  /** How far the drain loop has come: the waiting queues only shrink, and
      every queued arrival still costs two iterations, every other queued or
      waiting event one. */
  ghost predicate Counted(b: Books, pending: multiset<Event>, started: multiset<Event>, w0: seq<seq<Event>>)
  {
    && |b.waiting| == 3 && |w0| == 3
    && (forall l :: 0 <= l < 3 ==> IsSuffix(b.waiting[l], w0[l]))
    && |b.log| + 2 * |b.arrivals| + |b.departures| + WaitingTotal(b.waiting)
       == 2 * |pending| + |started| + WaitingTotal(w0)
  }

  /** Every pending arrival is still queued or has been seated; each seated
      arrival has been processed, and its departure is queued or processed. */
  ghost predicate Seated(b: Books, pending: multiset<Event>)
  {
    && b.arrivals + multiset(b.seated) == pending
    && multiset(b.seated) + multiset(SeatAll(b.seated, 0)) <= b.departures + multiset(b.log)
  }

  /** With non-negative treatment times, the events processed so far are in
      time order and no queued event is earlier than the last of them. */
  ghost predicate Ordered(b: Books)
  {
    && NonNegativeTreatments(b.queue) && WaitingNonNegative(b.waiting)
    && TimeOrdered(b.log)
    && (|b.log| > 0 ==> forall e :: e in b.queue ==> b.log[|b.log| - 1].time <= e.time)
  }

  /** What the drain loop keeps true, given how it started. */
  ghost predicate DrainInvariant(b: Books)
  {
    && Placed(b)
    && Counted(b, b.origin.pending, b.origin.started, b.origin.initial)
    && Seated(b, b.origin.pending)
    && (b.origin.ordered ==> Ordered(b))
  }

  /** The books the drain loop can be in. */
  type Ledger = b: Books | DrainInvariant(b)
    ghost witness Books(Origin(multiset{}, multiset{}, [[], [], []], false),
                        multiset{}, [[], [], []], multiset{}, multiset{}, [], [])

  /** The loop's variant: two iterations for every queued arrival, one for
      every queued departure and every waiting event. */
  function Remaining(b: Books): (r: nat)
    requires |b.waiting| == 3
  {
    2 * |b.arrivals| + |b.departures| + WaitingTotal(b.waiting)
  }

  /** The books after the earliest event `x`, an arrival, is seated with
      doctor 0 and its departure queued. */
  function AfterArrival(b: Books, x: Event): (r: Books)
    ensures r.origin == b.origin && r.log == b.log + [x]
  {
    var d := Seat(x, 0, x.time);
    b.(queue := b.queue - multiset{x} + multiset{d}, arrivals := b.arrivals - multiset{x},
       departures := b.departures + multiset{d}, log := b.log + [x], seated := b.seated + [x])
  }

  /** The departures a departure `x` starts: the head of the waiting queue at
      x's emergency level, if any, seated with x's doctor at x's time. */
  function Restarted(w: seq<seq<Event>>, x: Event): (r: multiset<Event>)
    requires |w| == 3 && 1 <= x.patient.emergencyLevel <= 3
    ensures |r| <= 1
    ensures |r| == 1 <==> |w[x.patient.emergencyLevel - 1]| > 0
    ensures AllOfKind(r, Departure)
    ensures WaitingLevelsInRange(w) ==> LevelsInRange(r)
    ensures WaitingNonNegative(w) ==> NonNegativeTreatments(r)
  {
    var l := x.patient.emergencyLevel - 1;
    if |w[l]| > 0 then multiset{Seat(w[l][0], x.doctorAssigned, x.time)} else multiset{}
  }

  /** The waiting queues after a departure `x`: the head of x's level is gone. */
  function Released(w: seq<seq<Event>>, x: Event): (r: seq<seq<Event>>)
    requires |w| == 3 && 1 <= x.patient.emergencyLevel <= 3
    ensures |r| == 3
    ensures WaitingTotal(r) == WaitingTotal(w) - |Restarted(w, x)|
    ensures WaitingLevelsInRange(w) ==> WaitingLevelsInRange(r)
    ensures WaitingNonNegative(w) ==> WaitingNonNegative(r)
  {
    var l := x.patient.emergencyLevel - 1;
    if |w[l]| > 0 then PopWaiting(w, l); w[l := w[l][1..]] else w
  }

  /** The books after the earliest event `x`, a departure, is processed: the
      head of its level's waiting queue, if any, restarts with x's doctor. */
  function AfterDeparture(b: Books, x: Event): (r: Books)
    requires |b.waiting| == 3 && 1 <= x.patient.emergencyLevel <= 3
    ensures r.origin == b.origin && r.log == b.log + [x]
  {
    var started := Restarted(b.waiting, x);
    b.(queue := b.queue - multiset{x} + started, waiting := Released(b.waiting, x),
       departures := b.departures - multiset{x} + started, log := b.log + [x])
  }

  lemma AppendOrdered(log: seq<Event>, x: Event)
    requires TimeOrdered(log)
    requires |log| > 0 ==> log[|log| - 1].time <= x.time
    ensures TimeOrdered(log + [x])
  {
  }

  lemma SuffixOfTail(a: seq<Event>, b: seq<Event>)
    requires IsSuffix(a, b) && |a| > 0
    ensures IsSuffix(a[1..], b)
  {
  }

  /** Taking events out of a multiset and adding events of kind `k` keeps
      every event of kind `k`. */
  lemma KindKept(m: multiset<Event>, out: multiset<Event>, add: multiset<Event>, k: EventType)
    requires AllOfKind(m, k) && AllOfKind(add, k)
    ensures AllOfKind(m - out + add, k)
  {
  }

  /** Taking events out of a multiset and adding events whose levels are in
      range keeps every level in range. */
  lemma LevelsKept(m: multiset<Event>, out: multiset<Event>, add: multiset<Event>)
    requires LevelsInRange(m) && LevelsInRange(add)
    ensures LevelsInRange(m - out + add)
  {
  }

  /** Moving `x` out of the arrivals and `d` into the departures keeps the
      queue their union. */
  lemma Moved(queue: multiset<Event>, arrivals: multiset<Event>, departures: multiset<Event>,
              x: Event, d: Event)
    requires queue == arrivals + departures && x in arrivals
    ensures queue - multiset{x} + multiset{d} == (arrivals - multiset{x}) + (departures + multiset{d})
  {
  }

  /** Taking `x` out of the departures and adding `started` keeps the queue
      their union with the arrivals. */
  lemma Dropped(queue: multiset<Event>, arrivals: multiset<Event>, departures: multiset<Event>,
                x: Event, started: multiset<Event>)
    requires queue == arrivals + departures && x in departures
    ensures queue - multiset{x} + started == arrivals + (departures - multiset{x} + started)
    ensures |departures - multiset{x} + started| == |departures| - 1 + |started|
  {
  }

  lemma ArrivalPlaced(b: Books, x: Event)
    requires Placed(b) && x in b.queue && x.kind == Arrival
    ensures Placed(AfterArrival(b, x))
    ensures Remaining(AfterArrival(b, x)) < Remaining(b)
  {
    assert x in b.arrivals;
    var d := Seat(x, 0, x.time);
    Moved(b.queue, b.arrivals, b.departures, x, d);
    KindKept(b.arrivals, multiset{x}, multiset{}, Arrival);
    KindKept(b.departures, multiset{}, multiset{d}, Departure);
    LevelsKept(b.queue, multiset{x}, multiset{d});
  }

  lemma ArrivalCounted(b: Books, x: Event, pending: multiset<Event>, started: multiset<Event>, w0: seq<seq<Event>>)
    requires Counted(b, pending, started, w0) && x in b.arrivals
    ensures Counted(AfterArrival(b, x), pending, started, w0)
  {
  }

  lemma ArrivalSeated(b: Books, x: Event, pending: multiset<Event>)
    requires Seated(b, pending) && x in b.arrivals
    ensures Seated(AfterArrival(b, x), pending)
  {
    var d := Seat(x, 0, x.time);
    var b' := AfterArrival(b, x);
    assert b'.arrivals + multiset(b'.seated) == pending by {
      assert multiset(b'.seated) == multiset(b.seated) + multiset{x};
    }
    assert multiset(b'.seated) + multiset(SeatAll(b'.seated, 0)) <= b'.departures + multiset(b'.log) by {
      SeatAllAppend(b.seated, [x], 0);
      assert SeatAll(b'.seated, 0) == SeatAll(b.seated, 0) + [d];
      assert multiset(SeatAll(b'.seated, 0)) == multiset(SeatAll(b.seated, 0)) + multiset{d};
      assert multiset(b'.seated) == multiset(b.seated) + multiset{x};
      assert b.departures + multiset(b.log) + multiset{x, d} <= b'.departures + multiset(b'.log);
    }
  }

  lemma ArrivalOrdered(b: Books, x: Event)
    requires Ordered(b) && x in b.queue
    requires forall e :: e in b.queue ==> x.time <= e.time
    ensures Ordered(AfterArrival(b, x))
  {
    AppendOrdered(b.log, x);
  }

  /** Processing the earliest event `x`, an arrival, keeps the loop's
      invariant and brings the loop closer to its end. */
  lemma ArrivalStep(b: Ledger, x: Event)
    requires x in b.queue && x.kind == Arrival
    requires forall e :: e in b.queue ==> x.time <= e.time
    ensures DrainInvariant(AfterArrival(b, x))
    ensures Remaining(AfterArrival(b, x)) < Remaining(b)
  {
    ArrivalPlaced(b, x);
    assert x in b.arrivals;
    ArrivalCounted(b, x, b.origin.pending, b.origin.started, b.origin.initial);
    ArrivalSeated(b, x, b.origin.pending);
    if b.origin.ordered {
      ArrivalOrdered(b, x);
    }
  }

  /** Taking the head of waiting queue `l` leaves the other events waiting. */
  lemma PopWaiting(w: seq<seq<Event>>, l: int)
    requires |w| == 3 && 0 <= l < 3 && |w[l]| > 0
    ensures WaitingTotal(w[l := w[l][1..]]) + 1 == WaitingTotal(w)
    ensures WaitingLevelsInRange(w) ==>
      WaitingLevelsInRange(w[l := w[l][1..]]) && 1 <= w[l][0].patient.emergencyLevel <= 3
    ensures WaitingNonNegative(w) ==>
      WaitingNonNegative(w[l := w[l][1..]]) && w[l][0].patient.treatmentTime >= 0.0
  {
    var w' := w[l := w[l][1..]];
    assert forall i :: 0 <= i < |w'[l]| ==> w'[l][i] == w[l][i + 1];
  }

  lemma DeparturePlaced(b: Books, x: Event)
    requires Placed(b) && x in b.queue && x.kind == Departure
    ensures 1 <= x.patient.emergencyLevel <= 3
    ensures Placed(AfterDeparture(b, x))
    ensures Remaining(AfterDeparture(b, x)) < Remaining(b)
  {
    assert x in b.departures;
    var started := Restarted(b.waiting, x);
    Dropped(b.queue, b.arrivals, b.departures, x, started);
    KindKept(b.departures, multiset{x}, started, Departure);
    LevelsKept(b.queue, multiset{x}, started);
  }

  lemma DepartureCounted(b: Books, x: Event, pending: multiset<Event>, started: multiset<Event>, w0: seq<seq<Event>>)
    requires Counted(b, pending, started, w0) && x in b.departures && 1 <= x.patient.emergencyLevel <= 3
    ensures Counted(AfterDeparture(b, x), pending, started, w0)
  {
    var l := x.patient.emergencyLevel - 1;
    if |b.waiting[l]| > 0 {
      var b' := AfterDeparture(b, x);
      SuffixOfTail(b.waiting[l], w0[l]);
      assert forall k :: 0 <= k < 3 ==> IsSuffix(b'.waiting[k], w0[k]);
      assert WaitingTotal(b'.waiting) + 1 == WaitingTotal(b.waiting);
    }
  }

  lemma DepartureSeated(b: Books, x: Event, pending: multiset<Event>)
    requires Seated(b, pending) && x in b.departures && |b.waiting| == 3 && 1 <= x.patient.emergencyLevel <= 3
    ensures Seated(AfterDeparture(b, x), pending)
  {
    var b' := AfterDeparture(b, x);
    assert b.departures + multiset(b.log) <= b'.departures + multiset(b'.log);
  }

  lemma DepartureOrdered(b: Books, x: Event)
    requires Ordered(b) && x in b.queue && |b.waiting| == 3 && 1 <= x.patient.emergencyLevel <= 3
    requires forall e :: e in b.queue ==> x.time <= e.time
    ensures Ordered(AfterDeparture(b, x))
  {
    AppendOrdered(b.log, x);
  }

  /** Processing the earliest event `x`, a departure, keeps the loop's
      invariant and brings the loop closer to its end. */
  lemma DepartureStep(b: Ledger, x: Event)
    requires x in b.queue && x.kind == Departure
    requires forall e :: e in b.queue ==> x.time <= e.time
    ensures 1 <= x.patient.emergencyLevel <= 3
    ensures DrainInvariant(AfterDeparture(b, x))
    ensures Remaining(AfterDeparture(b, x)) < Remaining(b)
  {
    DeparturePlaced(b, x);
    assert x in b.departures;
    DepartureCounted(b, x, b.origin.pending, b.origin.started, b.origin.initial);
    DepartureSeated(b, x, b.origin.pending);
    if b.origin.ordered {
      DepartureOrdered(b, x);
    }
  }

  /** An event no later, by the queue's key, than any other in `s` has the
      earliest time in `s`. */
  lemma EarliestByTime(s: seq<Event>, key: Event -> real, x: Event)
    requires key == EventTime
    requires forall e :: e in s ==> key(x) <= key(e)
    ensures forall e :: e in multiset(s) ==> x.time <= e.time
  {
    forall e | e in multiset(s)
      ensures x.time <= e.time
    {
      assert e in s;
      assert key(x) <= key(e);
    }
  }

  /** The books of a drain that has not started yet. */
  lemma DrainStart(queue: multiset<Event>, waiting: seq<seq<Event>>, pending: multiset<Event>,
                   started: multiset<Event>, ordered: bool)
    requires |waiting| == 3 && queue == pending + started
    requires AllOfKind(pending, Arrival) && AllOfKind(started, Departure)
    requires LevelsInRange(queue) && WaitingLevelsInRange(waiting)
    requires ordered ==> NonNegativeTreatments(queue) && WaitingNonNegative(waiting)
    ensures DrainInvariant(Books(Origin(pending, started, waiting, ordered), queue, waiting, pending, started, [], []))
  {
  }

  /** When the queue is empty, the books give the drain loop's results. */
  lemma DrainFinished(b: Ledger)
    requires b.queue == multiset{}
    ensures forall l :: 0 <= l < 3 ==> IsSuffix(b.waiting[l], b.origin.initial[l])
    ensures |b.log| + WaitingTotal(b.waiting)
         == 2 * |b.origin.pending| + |b.origin.started| + WaitingTotal(b.origin.initial)
    ensures multiset(b.seated) == b.origin.pending
    ensures multiset(b.seated) + multiset(SeatAll(b.seated, 0)) <= multiset(b.log)
    ensures b.origin.ordered ==> TimeOrdered(b.log)
  {
    assert b.arrivals == multiset{} && b.departures == multiset{};
  }

  /** The arrivals of a run, all queued and none yet processed, satisfy the
      preconditions of `DrainStart`. */
  lemma ArrivalsPlaced(arrivals: seq<Event>, ordered: bool)
    requires forall i :: 0 <= i < |arrivals| ==>
      arrivals[i].kind == Arrival && 1 <= arrivals[i].patient.emergencyLevel <= 3
    requires ordered == NonNegativeArrivals(arrivals)
    ensures AllOfKind(multiset(arrivals), Arrival) && LevelsInRange(multiset(arrivals))
    ensures ordered ==> NonNegativeTreatments(multiset(arrivals))
  {
    forall e | e in multiset(arrivals)
      ensures e.kind == Arrival && 1 <= e.patient.emergencyLevel <= 3
      ensures ordered ==> e.patient.treatmentTime >= 0.0
    {
      assert e in arrivals;
    }
  }

  /** Waiting queues that are suffixes of empty queues are empty. */
  lemma EmptiedSuffixes(w: seq<seq<Event>>, w0: seq<seq<Event>>)
    requires |w| == 3 && w0 == [[], [], []]
    requires forall l :: 0 <= l < 3 ==> IsSuffix(w[l], w0[l])
    ensures w == [[], [], []]
  {
    assert IsSuffix(w[0], w0[0]) && IsSuffix(w[1], w0[1]) && IsSuffix(w[2], w0[2]);
  }

  /** A sub-multiset as large as the multiset is the multiset. */
  lemma SubMultisetOfSameSize(a: multiset<Event>, b: multiset<Event>)
    requires a <= b && |a| == |b|
    ensures a == b
  {
    assert b == a + (b - a);
    assert |b - a| == 0;
  }

  /** Whether every arrival of a run has a non-negative treatment time. */
  ghost predicate NonNegativeArrivals(arrivals: seq<Event>)
  {
    forall i :: 0 <= i < |arrivals| ==> arrivals[i].patient.treatmentTime >= 0.0
  }

  /** The books of a run whose arrivals are all queued and whose waiting
      queues are empty. */
  ghost function StartOfRun(arrivals: seq<Event>): (b: Ledger)
    requires forall i :: 0 <= i < |arrivals| ==>
      arrivals[i].kind == Arrival && 1 <= arrivals[i].patient.emergencyLevel <= 3
    ensures b.queue == multiset(arrivals) && b.waiting == [[], [], []] && b.log == []
    ensures b.origin == Origin(multiset(arrivals), multiset{}, [[], [], []], NonNegativeArrivals(arrivals))
  {
    var pending := multiset(arrivals);
    var ordered := NonNegativeArrivals(arrivals);
    ArrivalsPlaced(arrivals, ordered);
    DrainStart(pending, [[], [], []], pending, multiset{}, ordered);
    Books(Origin(pending, multiset{}, [[], [], []], ordered), pending, [[], [], []], pending, multiset{}, [], [])
  }

  /** The books at the end of a run that started from `arrivals` alone and
      took `iterations` steps, one logged event each. */
  lemma RunFinished(b: Ledger, arrivals: seq<Event>, iterations: nat)
    requires b.origin == Origin(multiset(arrivals), multiset{}, [[], [], []], NonNegativeArrivals(arrivals))
    requires b.queue == multiset{} && |b.log| == iterations
    ensures b.waiting == [[], [], []]
    ensures iterations == |b.log| == 2 * |arrivals|
    ensures multiset(b.log) == multiset(arrivals) + multiset(SeatAll(arrivals, 0))
    ensures NonNegativeArrivals(arrivals) ==> TimeOrdered(b.log)
  {
    DrainFinished(b);
    EmptiedSuffixes(b.waiting, b.origin.initial);
    SeatAllPermutation(b.seated, arrivals, 0);
    SubMultisetOfSameSize(multiset(b.seated) + multiset(SeatAll(b.seated, 0)), multiset(b.log));
  }

  /** What one run's processed events are: each arrival and its departure. */
  ghost predicate Logged(arrivals: seq<Event>, log: seq<Event>)
  {
    |log| == 2 * |arrivals| && multiset(log) == multiset(arrivals) + multiset(SeatAll(arrivals, 0))
  }

  class Simulation {
    const numberOfDoctors: int
    const averageArrivalTime: real
    const treatmentTimeT: real
    const numberOfRuns: int := 10
    var eventQueue: PriorityQueue?<Event>

    constructor (numberOfDoctors: int, averageArrivalTime: real, treatmentTimeT: real)
      ensures this.numberOfDoctors == numberOfDoctors
      ensures this.averageArrivalTime == averageArrivalTime
      ensures this.treatmentTimeT == treatmentTimeT
      ensures eventQueue == null
    {
      this.numberOfDoctors := numberOfDoctors;
      this.averageArrivalTime := averageArrivalTime;
      this.treatmentTimeT := treatmentTimeT;
      eventQueue := null;
    }

    /** Scans doctors `startIndex .. numberOfDoctors - 1` for an index `i` with
        `i % numberOfDoctors == startIndex` and `i != startIndex`; none exists,
        so the answer is `startIndex`, never -1. The remainder throws, here
        `None`, in two cases only: a `DivideByZeroException` when the scan runs
        with `numberOfDoctors == 0`, that is when `startIndex` is negative, and
        an `OverflowException` for `int.MinValue % -1`, which the scan computes
        first when `startIndex` is `int.MinValue` and `numberOfDoctors` is -1.
        `startIndex` is a C# `int`, so it is at least `int.MinValue`. */
    method FindAvailableDoctor(startIndex: int) returns (r: Option<int>)
      requires IntMin <= startIndex
      ensures r.None? <==>
        (numberOfDoctors == 0 && startIndex < 0) || (numberOfDoctors == -1 && startIndex == IntMin)
      ensures r.Some? ==> r.value == startIndex
    {
      var i := startIndex;
      while i < numberOfDoctors
        invariant startIndex <= i
        invariant numberOfDoctors == 0 ==> i == startIndex
        invariant numberOfDoctors == -1 && startIndex == IntMin ==> i == startIndex
        decreases numberOfDoctors - i
      {
        if numberOfDoctors == 0 {
          return None;
        }
        if i == IntMin && numberOfDoctors == -1 {
          return None;
        }
        if TruncRem(i, numberOfDoctors) == startIndex && i != startIndex {
          return Some(-1);
        }
        i := i + 1;
      }
      return Some(startIndex);
    }

    /** One iteration of the drain loop: the earliest event is taken out of
        the queue and handled according to its kind. */
    method ProcessNextEvent(q: PriorityQueue<Event>, waitingQueues: array<seq<Event>>, doctorIndex: int,
                            ghost books0: Ledger) returns (currentEvent: Event, ghost books: Ledger)
      requires q.Valid() && q.key == EventTime && |q.data| > 0 && doctorIndex == 0
      requires books0.queue == multiset(q.data) && books0.waiting == waitingQueues[..]
      modifies q, waitingQueues
      ensures q.Valid()
      ensures currentEvent in old(q.data) && forall e :: e in old(q.data) ==> currentEvent.time <= e.time
      ensures books == if currentEvent.kind == Arrival then AfterArrival(books0, currentEvent)
                       else AfterDeparture(books0, currentEvent)
      ensures books.queue == multiset(q.data) && books.waiting == waitingQueues[..]
      ensures books.origin == books0.origin && |books.log| == |books0.log| + 1
      ensures Remaining(books) < Remaining(books0)
    {
      ghost var before := q.data;
      var next := q.Dequeue();
      currentEvent := next.value;
      EarliestByTime(before, q.key, currentEvent);
      if currentEvent.kind == Arrival {
        ArrivalStep(books0, currentEvent);
        Admit(q, currentEvent, doctorIndex);
        books := AfterArrival(books0, currentEvent);
      } else {
        DepartureStep(books0, currentEvent);
        Discharge(q, waitingQueues, currentEvent);
        books := AfterDeparture(books0, currentEvent);
      }
    }

    /** An arrival taken out of the queue: it is given the doctor
        `FindAvailableDoctor` returns, doctor 0, and goes back into the queue
        as a departure at its time plus its treatment time. */
    method Admit(q: PriorityQueue<Event>, currentEvent: Event, doctorIndex: int)
      requires q.Valid() && doctorIndex == 0
      modifies q
      ensures q.Valid()
      ensures multiset(q.data) == old(multiset(q.data)) + multiset{Seat(currentEvent, 0, currentEvent.time)}
    {
      var found := FindAvailableDoctor(doctorIndex);
      if found.None? {
        // doctorIndex is 0, so the scan never takes a remainder by zero
        assert false;
      }
      var availableDoctor := found.value;
      if availableDoctor >= 0 {
        var departure := Seat(currentEvent, availableDoctor, currentEvent.time);
        q.Enqueue(departure);
      } else {
        // FindAvailableDoctor never answers -1, so an arrival never joins a
        // waiting queue
        assert false;
      }
    }

    /** A departure taken out of the queue: its doctor takes the first patient
        waiting at the same emergency level, if any, whose departure goes into
        the queue. */
    method Discharge(q: PriorityQueue<Event>, waitingQueues: array<seq<Event>>, currentEvent: Event)
      requires q.Valid() && waitingQueues.Length == 3
      requires 1 <= currentEvent.patient.emergencyLevel <= 3
      modifies q, waitingQueues
      ensures q.Valid()
      ensures waitingQueues[..] == Released(old(waitingQueues[..]), currentEvent)
      ensures multiset(q.data) == old(multiset(q.data)) + Restarted(old(waitingQueues[..]), currentEvent)
    {
      var l := currentEvent.patient.emergencyLevel - 1;
      if |waitingQueues[l]| > 0 {
        var nextPatient := waitingQueues[l][0];
        waitingQueues[l] := waitingQueues[l][1..];
        var restarted := Seat(nextPatient, currentEvent.doctorAssigned, currentEvent.time);
        q.Enqueue(restarted);
      }
    }

    /** The drain loop of `RunSimulation`: events are taken out of the queue,
        earliest first, until it is empty. The ghost books follow the events;
        `DrainFinished` says what they record once the queue is empty. */
    method Drain(q: PriorityQueue<Event>, waitingQueues: array<seq<Event>>, ghost books0: Ledger)
        returns (ghost books: Ledger, ghost iterations: nat)
      requires q.Valid() && q.key == EventTime
      requires books0.queue == multiset(q.data) && books0.waiting == waitingQueues[..]
      modifies q, waitingQueues
      ensures q.Valid() && q.data == []
      ensures books.origin == books0.origin && books.queue == multiset{}
      ensures books.waiting == waitingQueues[..]
      ensures |books.log| == |books0.log| + iterations
    {
      books, iterations := books0, 0;
      var doctorIndex := 0;
      while q.Count() > 0
        invariant q.Valid() && q.key == EventTime
        invariant books.queue == multiset(q.data) && books.waiting == waitingQueues[..]
        invariant books.origin == books0.origin
        invariant |books.log| == |books0.log| + iterations
        decreases Remaining(books)
      {
        var _, b := ProcessNextEvent(q, waitingQueues, doctorIndex, books);
        books := b;
        iterations := iterations + 1;
      }
    }

    /** One run of `RunSimulation`: a fresh event queue and three empty waiting
        queues, the run's arrivals enqueued, then the drain loop. The drain
        takes exactly two iterations per arrival, never puts anyone in a
        waiting queue, and processes each arrival and its departure on doctor
        0 at arrival time plus treatment time, and nothing else. */
    method RunOnce(arrivals: seq<Event>)
        returns (ghost log: seq<Event>, ghost iterations: nat, ghost waiting: seq<seq<Event>>)
      requires forall i :: 0 <= i < |arrivals| ==>
        arrivals[i].kind == Arrival && 1 <= arrivals[i].patient.emergencyLevel <= 3
      modifies this
      ensures eventQueue != null && fresh(eventQueue) && eventQueue.Valid() && eventQueue.data == []
      ensures iterations == |log| == 2 * |arrivals|
      ensures waiting == [[], [], []]
      ensures multiset(log) == multiset(arrivals) + multiset(SeatAll(arrivals, 0))
      ensures NonNegativeArrivals(arrivals) ==> TimeOrdered(log)
    {
      var q := new PriorityQueue<Event>(EventTime);
      eventQueue := q;
      var waitingQueues := new seq<Event>[3](_ => []);
      assert waitingQueues[..] == [[], [], []];
      EnqueueAll(q, arrivals);
      log, iterations := DrainArrivals(q, waitingQueues, arrivals);
      waiting := waitingQueues[..];
    }

    /** The drain loop on a queue holding exactly the run's arrivals, with
        empty waiting queues. */
    method DrainArrivals(q: PriorityQueue<Event>, waitingQueues: array<seq<Event>>, arrivals: seq<Event>)
        returns (ghost log: seq<Event>, ghost iterations: nat)
      requires forall i :: 0 <= i < |arrivals| ==>
        arrivals[i].kind == Arrival && 1 <= arrivals[i].patient.emergencyLevel <= 3
      requires q.Valid() && q.key == EventTime && multiset(q.data) == multiset(arrivals)
      requires waitingQueues.Length == 3 && waitingQueues[..] == [[], [], []]
      modifies q, waitingQueues
      ensures q.Valid() && q.data == []
      ensures iterations == |log| == 2 * |arrivals|
      ensures waitingQueues[..] == [[], [], []]
      ensures multiset(log) == multiset(arrivals) + multiset(SeatAll(arrivals, 0))
      ensures NonNegativeArrivals(arrivals) ==> TimeOrdered(log)
    {
      ghost var start := StartOfRun(arrivals);
      assert start.log == [];
      ghost var books;
      books, iterations := Drain(q, waitingQueues, start);
      RunFinished(books, arrivals, iterations);
      log := books.log;
    }

    /** The enqueueing of a run's arrivals, in order. */
    method EnqueueAll(q: PriorityQueue<Event>, arrivals: seq<Event>)
      requires q.Valid() && q.data == []
      modifies q
      ensures q.Valid() && multiset(q.data) == multiset(arrivals)
    {
      var i := 0;
      while i < |arrivals|
        invariant 0 <= i <= |arrivals|
        invariant q.Valid() && multiset(q.data) == multiset(arrivals[..i])
      {
        q.Enqueue(arrivals[i]);
        assert arrivals[..i + 1] == arrivals[..i] + [arrivals[i]];
        i := i + 1;
      }
      assert arrivals[..i] == arrivals;
    }

    /** `RunSimulation`: `numberOfRuns` independent runs, run `k` on the
        arrivals `runs[k]`; each run ends with its queues empty. */
    method RunSimulation(runs: seq<seq<Event>>) returns (ghost logs: seq<seq<Event>>)
      requires |runs| == numberOfRuns
      requires forall k, i :: 0 <= k < |runs| && 0 <= i < |runs[k]| ==>
        runs[k][i].kind == Arrival && 1 <= runs[k][i].patient.emergencyLevel <= 3
      modifies this
      ensures |logs| == numberOfRuns
      ensures forall k :: 0 <= k < |runs| ==>
        |logs[k]| == 2 * |runs[k]| && multiset(logs[k]) == multiset(runs[k]) + multiset(SeatAll(runs[k], 0))
      ensures numberOfRuns > 0 ==> eventQueue != null && fresh(eventQueue) && eventQueue.Valid() && eventQueue.data == []
    {
      logs := [];
      var run := 0;
      while run < numberOfRuns
        invariant 0 <= run <= numberOfRuns && |logs| == run
        invariant forall k :: 0 <= k < run ==> Logged(runs[k], logs[k])
        invariant run > 0 ==> eventQueue != null && fresh(eventQueue) && eventQueue.Valid() && eventQueue.data == []
      {
        var log, _, _ := RunOnce(runs[run]);
        assert Logged(runs[run], log);
        logs := logs + [log];
        run := run + 1;
      }
    }
  }
}
