/**
  `ManualStack`: a singly-linked LIFO of strings with a `top` pointer and a
  `count`, and the parking tower of `ParkingManagement` built on it. The chain is
  a sequence, top first. An empty stack answers `pop` and `peek` with a marker
  string instead of failing.
 */
module Stack {
  import opened Wrappers

  /** The string `pop` and `peek` return on an empty stack. */
  const EmptyStackMarker: string := "ERROR_EMPTY_STACK"

  datatype Stack = Stack(items: seq<string>, count: int)
  {
    ghost predicate Valid() {
      count == |items|
    }

    /** `isEmpty` tests `top == NULL`. */
    predicate IsEmpty() {
      |items| == 0
    }
  }

  function EmptyStack(): (s: Stack)
    ensures s.Valid() && s.IsEmpty()
  {
    Stack([], 0)
  }

  /** `push`: the new node becomes `top`. */
  function Push(s: Stack, x: string): (r: Stack)
    requires s.Valid()
    ensures r.Valid() && !r.IsEmpty()
    ensures r.items[0] == x && r.items[1..] == s.items
    ensures r.count == s.count + 1
  {
    Stack([x] + s.items, s.count + 1)
  }

  /** `pop`: remove and return the top; on an empty stack return the marker and
      change nothing. */
  function Pop(s: Stack): (r: (string, Stack))
    requires s.Valid()
    ensures r.1.Valid()
    ensures s.IsEmpty() ==> r == (EmptyStackMarker, s)
    ensures !s.IsEmpty() ==> r.0 == s.items[0] && r.1.items == s.items[1..] && r.1.count == s.count - 1
  {
    if s.IsEmpty() then (EmptyStackMarker, s)
    else (s.items[0], Stack(s.items[1..], s.count - 1))
  }

  /** `peek`: the top without removing it, or the marker. */
  function Peek(s: Stack): (r: string)
    ensures s.IsEmpty() ==> r == EmptyStackMarker
    ensures !s.IsEmpty() ==> r == s.items[0]
  {
    if s.IsEmpty() then EmptyStackMarker else s.items[0]
  }

  /** LIFO law: a pop right after a push returns the pushed value and restores
      the previous stack. */
  lemma PushPop(s: Stack, x: string)
    requires s.Valid()
    ensures Pop(Push(s, x)) == (x, s)
    ensures Peek(Push(s, x)) == x
  {
    assert Push(s, x).items[1..] == s.items;
  }

  /** Pushing a run of values and popping as many returns them in reverse order
      and restores the stack. */
  lemma {:induction false} PushAllPopAll(s: Stack, xs: seq<string>)
    requires s.Valid()
    ensures PopN(PushAll(s, xs), |xs|) == (Reverse(xs), s)
    decreases |xs|
  {
    if |xs| > 0 {
      var init := xs[..|xs| - 1];
      var last := xs[|xs| - 1];
      PushPop(PushAll(s, init), last);
      PushAllPopAll(s, init);
      assert Reverse(xs) == [last] + Reverse(init);
    }
  }

  function PushAll(s: Stack, xs: seq<string>): (r: Stack)
    requires s.Valid()
    ensures r.Valid() && r.count == s.count + |xs|
    decreases |xs|
  {
    if |xs| == 0 then s else Push(PushAll(s, xs[..|xs| - 1]), xs[|xs| - 1])
  }

  /** Pop `n` times, collecting what comes off. */
  function PopN(s: Stack, n: nat): (r: (seq<string>, Stack))
    requires s.Valid()
    ensures r.1.Valid() && |r.0| == n
    decreases n
  {
    if n == 0 then ([], s)
    else
      var (x, rest) := Pop(s);
      var (ys, final) := PopN(rest, n - 1);
      ([x] + ys, final)
  }

  function Reverse(xs: seq<string>): (r: seq<string>)
    ensures |r| == |xs|
    ensures forall i :: 0 <= i < |xs| ==> r[i] == xs[|xs| - 1 - i]
  {
    if |xs| == 0 then [] else [xs[|xs| - 1]] + Reverse(xs[..|xs| - 1])
  }

  /** `ParkingManagement`: one tower (a stack of licence plates) and its capacity,
      10 by default. */
  datatype ParkingLot = ParkingLot(tower: Stack, capacity: int)

  const DefaultCapacity: int := 10

  function NewParkingLot(capacity: int := DefaultCapacity): (p: ParkingLot)
    ensures p.tower.Valid() && p.tower.IsEmpty() && p.capacity == capacity
  {
    ParkingLot(EmptyStack(), capacity)
  }

  /** `parkVehicle`: refuse when the tower holds `capacity` or more vehicles,
      otherwise push the plate. The flag says whether the vehicle was parked. */
  function ParkVehicle(p: ParkingLot, plate: string): (r: (ParkingLot, bool))
    requires p.tower.Valid()
    ensures r.0.tower.Valid() && r.0.capacity == p.capacity
    ensures r.1 <==> p.tower.count < p.capacity
    ensures r.1 ==> r.0.tower == Push(p.tower, plate)
    ensures !r.1 ==> r.0 == p
    ensures r.1 ==> r.0.tower.count <= r.0.capacity
  {
    if p.tower.count >= p.capacity then (p, false)
    else (p.(tower := Push(p.tower, plate)), true)
  }

  /** `unparkVehicle`: nothing to do on an empty tower, otherwise pop the most
      recently parked plate. */
  function UnparkVehicle(p: ParkingLot): (r: (Option<string>, ParkingLot))
    requires p.tower.Valid()
    ensures r.1.tower.Valid() && r.1.capacity == p.capacity
    ensures p.tower.IsEmpty() ==> r == (None, p)
    ensures !p.tower.IsEmpty() ==> r.0 == Some(p.tower.items[0]) && r.1.tower.items == p.tower.items[1..]
  {
    if p.tower.IsEmpty() then (None, p)
    else
      var (plate, rest) := Pop(p.tower);
      (Some(plate), p.(tower := rest))
  }

  /** The capacity guard: starting within capacity, any sequence of park and
      unpark requests stays within capacity. */
  lemma {:induction false} NeverOverCapacity(p: ParkingLot, requests: seq<Option<string>>)
    requires p.tower.Valid() && p.tower.count <= p.capacity
    ensures var q := Serve(p, requests); q.tower.Valid() && q.tower.count <= q.capacity
    decreases |requests|
  {
    if |requests| > 0 {
      var p' := Step(p, requests[0]);
      NeverOverCapacity(p', requests[1..]);
    }
  }

  /** One request: `Some(plate)` parks a vehicle, `None` unparks one. */
  function Step(p: ParkingLot, request: Option<string>): (q: ParkingLot)
    requires p.tower.Valid()
    ensures q.tower.Valid() && q.capacity == p.capacity
    ensures q.tower.count <= p.tower.count + 1
    ensures p.tower.count <= p.capacity ==> q.tower.count <= q.capacity
  {
    match request
    case Some(plate) => ParkVehicle(p, plate).0
    case None => UnparkVehicle(p).1
  }

  function Serve(p: ParkingLot, requests: seq<Option<string>>): (q: ParkingLot)
    requires p.tower.Valid()
    ensures q.tower.Valid() && q.capacity == p.capacity
    decreases |requests|
  {
    if |requests| == 0 then p else Serve(Step(p, requests[0]), requests[1..])
  }
}
