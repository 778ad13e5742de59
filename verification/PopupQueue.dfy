/**
 The queue of popup requests: a multiset ordered by falling priority, taken from through a filter.

 The filter chooses a priority class; what leaves the queue is the oldest request of that class, which need not
 be the one the filter accepted.
 */
module PopupQueue {
  import opened Options
  import opened Popups

  /** A request; `stamp` tells otherwise equal requests apart. */
  datatype Request = Request(params: PopupParams, stamp: nat)
  {
    function Rank(): nat {
      params.disposition.priority.Rank()
    }
  }

  /** The highest priority comes first. */
  lemma RanksRise()
    ensures Low.Rank() < Normal.Rank() < High.Rank() < Highest.Rank()
  {
  }

  /** Where the multiset inserts: after every element that does not order behind the new one. */
  function Inserted(requests: seq<Request>, r: Request): seq<Request> {
    if requests != [] && requests[0].Rank() >= r.Rank() then [requests[0]] + Inserted(requests[1..], r)
    else [r] + requests
  }

  /** The first element equivalent to `r`, which is what extraction by key removes. */
  function FirstOfClass(requests: seq<Request>, rank: nat): (at: Option<nat>)
    ensures at.Some? ==> at.value < |requests| && requests[at.value].Rank() == rank
    ensures at.Some? ==> forall j | 0 <= j < at.value :: requests[j].Rank() != rank
    ensures at.None? ==> forall r | r in requests :: r.Rank() != rank
  {
    if requests == [] then None
    else if requests[0].Rank() == rank then Some(0)
    else
      match FirstOfClass(requests[1..], rank)
      case None => None
      case Some(at) => Some(at + 1)
  }

  function RemovedAt<T>(s: seq<T>, at: nat): seq<T>
    requires at < |s|
  {
    s[..at] + s[at + 1..]
  }

  function FirstPermitted(requests: seq<Request>, permitted: PopupParams -> bool): (at: Option<nat>)
    ensures at.Some? ==> at.value < |requests| && permitted(requests[at.value].params)
    ensures at.Some? ==> forall j | 0 <= j < at.value :: !permitted(requests[j].params)
    ensures at.None? ==> forall r | r in requests :: !permitted(r.params)
  {
    if requests == [] then None
    else if permitted(requests[0].params) then Some(0)
    else
      match FirstPermitted(requests[1..], permitted)
      case None => None
      case Some(at) => Some(at + 1)
  }

  function Popped(requests: seq<Request>, permitted: PopupParams -> bool): (seq<Request>, Option<Request>) {
    match FirstPermitted(requests, permitted)
    case None => (requests, None)
    case Some(accepted) =>
      match FirstOfClass(requests, requests[accepted].Rank())
      case None => (requests, None)
      case Some(extracted) => (RemovedAt(requests, extracted), Some(requests[extracted]))
  }

  lemma {:induction false} InsertedBehind(requests: seq<Request>, at: nat, r: Request)
    requires at < |requests| && requests[at].Rank() >= r.Rank()
    ensures requests[..at] + Inserted(requests[at..], r) == requests[..at + 1] + Inserted(requests[at + 1..], r)
  {
    assert requests[at..][1..] == requests[at + 1..];
    assert requests[..at + 1] == requests[..at] + [requests[at]];
  }

  lemma {:induction false} InsertedHere(requests: seq<Request>, r: Request)
    requires requests == [] || requests[0].Rank() < r.Rank()
    ensures Inserted(requests, r) == [r] + requests
  {
  }

  class WindowsPopupQueue {
    var requests: seq<Request>

    constructor ()
      ensures requests == []
    {
      requests := [];
    }

    method Clear()
      modifies this
      ensures requests == []
    {
      requests := [];
    }

    method PushRequest(r: Request)
      modifies this
      ensures requests == Inserted(old(requests), r)
    {
      hide Inserted;
      var at := 0;
      assert requests[0..] == requests && requests[..0] + Inserted(requests, r) == Inserted(requests, r);
      while at < |requests| && requests[at].Rank() >= r.Rank()
        invariant at <= |requests| && requests == old(requests)
        invariant requests[..at] + Inserted(requests[at..], r) == Inserted(requests, r)
      {
        InsertedBehind(requests, at, r);
        at := at + 1;
      }
      InsertedHere(requests[at..], r);
      assert requests[..at] + ([r] + requests[at..]) == requests[..at] + [r] + requests[at..];
      requests := requests[..at] + [r] + requests[at..];
    }

    /** Walks the requests in priority order, and extracts by key the one the filter permits. */
    method PopRequest(permitted: PopupParams -> bool) returns (request: Option<Request>)
      modifies this
      ensures (requests, request) == Popped(old(requests), permitted)
    {
      for i := 0 to |requests|
        invariant requests == old(requests)
        invariant forall j | 0 <= j < i :: !permitted(requests[j].params)
      {
        if permitted(requests[i].params) {
          var first := FirstPermitted(requests, permitted);
          var extracted := FirstOfClass(requests, requests[i].Rank());
          request := Some(requests[extracted.value]);
          requests := RemovedAt(requests, extracted.value);
          return request;
        }
      }
      return None;
    }
  }

  // ---------------------------------------------------------------------------------------------
  // The queue as a record of arrivals

  /** The arrivals of one priority, in the order they came. */
  function OfRank(arrivals: seq<Request>, rank: nat): seq<Request> {
    if arrivals == [] then []
    else (if arrivals[0].Rank() == rank then [arrivals[0]] else []) + OfRank(arrivals[1..], rank)
  }

  /** The arrivals of this priority and below, highest first. */
  function FromRankDown(arrivals: seq<Request>, rank: nat): seq<Request> {
    OfRank(arrivals, rank) + (if rank == 0 then [] else FromRankDown(arrivals, rank - 1))
  }

  const TOP_RANK: nat := 3

  function InPriorityOrder(arrivals: seq<Request>): seq<Request> {
    FromRankDown(arrivals, TOP_RANK)
  }

  /** The highest priority that has a permitted request. */
  function BestRank(arrivals: seq<Request>, permitted: PopupParams -> bool): (rank: Option<nat>)
    ensures rank.Some? ==> exists r :: r in arrivals && permitted(r.params) && r.Rank() == rank.value
    ensures rank.Some? ==> forall r | r in arrivals && permitted(r.params) :: r.Rank() <= rank.value
    ensures rank.None? ==> forall r | r in arrivals :: !permitted(r.params)
  {
    if arrivals == [] then None
    else
      var rest := BestRank(arrivals[1..], permitted);
      if permitted(arrivals[0].params) && (rest.None? || rest.value < arrivals[0].Rank())
      then Some(arrivals[0].Rank())
      else rest
  }

  /** The plain reading: the oldest arrival of the highest priority that has a permitted one. */
  function Taken(arrivals: seq<Request>, permitted: PopupParams -> bool): (seq<Request>, Option<Request>) {
    match BestRank(arrivals, permitted)
    case None => (arrivals, None)
    case Some(rank) =>
      match FirstOfClass(arrivals, rank)
      case None => (arrivals, None)
      case Some(at) => (RemovedAt(arrivals, at), Some(arrivals[at]))
  }

  lemma {:induction false} OfRankAppend(a: seq<Request>, b: seq<Request>, rank: nat)
    ensures OfRank(a + b, rank) == OfRank(a, rank) + OfRank(b, rank)
    decreases |a|
  {
    if a == [] {
      assert a + b == b;
      assert [] + OfRank(b, rank) == OfRank(b, rank);
    } else {
      var head := if a[0].Rank() == rank then [a[0]] else [];
      assert (a + b)[1..] == a[1..] + b;
      OfRankAppend(a[1..], b, rank);
      assert head + (OfRank(a[1..], rank) + OfRank(b, rank)) == (head + OfRank(a[1..], rank)) + OfRank(b, rank);
    }
  }

  lemma {:induction false} OfRankHolds(arrivals: seq<Request>, rank: nat)
    ensures forall r :: r in OfRank(arrivals, rank) <==> r in arrivals && r.Rank() == rank
    decreases |arrivals|
  {
    if arrivals != [] {
      OfRankHolds(arrivals[1..], rank);
    }
  }

  lemma {:induction false} FromRankDownHolds(arrivals: seq<Request>, rank: nat)
    ensures forall r :: r in FromRankDown(arrivals, rank) <==> r in arrivals && r.Rank() <= rank
    decreases rank
  {
    hide OfRank;
    OfRankHolds(arrivals, rank);
    if rank > 0 {
      FromRankDownHolds(arrivals, rank - 1);
    }
  }

  lemma {:induction false} InsertedPast(front: seq<Request>, back: seq<Request>, r: Request)
    requires forall q | q in front :: q.Rank() >= r.Rank()
    ensures Inserted(front + back, r) == front + Inserted(back, r)
    decreases |front|
  {
    if front == [] {
      assert front + back == back && front + Inserted(back, r) == Inserted(back, r);
    } else {
      assert (front + back)[1..] == front[1..] + back;
      InsertedPast(front[1..], back, r);
      assert [front[0]] + (front[1..] + Inserted(back, r)) == front + Inserted(back, r);
    }
  }

  /** Inserting into the priority order is arriving last. */
  lemma {:induction false} InsertionIsArrival(arrivals: seq<Request>, r: Request)
    ensures Inserted(InPriorityOrder(arrivals), r) == InPriorityOrder(arrivals + [r])
  {
    InsertionAtRank(arrivals, r, TOP_RANK);
  }

  function BelowRank(arrivals: seq<Request>, rank: nat): seq<Request> {
    if rank == 0 then [] else FromRankDown(arrivals, rank - 1)
  }

  lemma {:induction false} InsertionAtRank(arrivals: seq<Request>, r: Request, rank: nat)
    requires r.Rank() <= rank
    ensures Inserted(FromRankDown(arrivals, rank), r) == FromRankDown(arrivals + [r], rank)
    decreases rank
  {
    hide OfRank, Inserted;
    OfRankHolds(arrivals, rank);
    InsertedPast(OfRank(arrivals, rank), BelowRank(arrivals, rank), r);
    OfRankAppend(arrivals, [r], rank);
    OfRankOne(r, rank);
    if r.Rank() == rank {
      InsertedBeforeLower(arrivals, r);
      InsertedIntoClass(OfRank(arrivals, rank), BelowRank(arrivals, rank), r);
    } else {
      InsertionAtRank(arrivals, r, rank - 1);
      assert OfRank(arrivals, rank) + [] == OfRank(arrivals, rank);
    }
  }

  lemma InsertedIntoClass(own: seq<Request>, below: seq<Request>, r: Request)
    ensures own + ([r] + below) == (own + [r]) + below
  {
  }

  lemma {:induction false} OfRankOne(r: Request, rank: nat)
    ensures OfRank([r], rank) == if r.Rank() == rank then [r] else []
  {
    assert [r][1..] == [];
  }

  lemma {:induction false} InsertedBeforeLower(arrivals: seq<Request>, r: Request)
    ensures Inserted(BelowRank(arrivals, r.Rank()), r) == [r] + BelowRank(arrivals, r.Rank())
    ensures BelowRank(arrivals + [r], r.Rank()) == BelowRank(arrivals, r.Rank())
  {
    hide OfRank;
    var below := BelowRank(arrivals, r.Rank());
    if r.Rank() > 0 {
      FromRankDownHolds(arrivals, r.Rank() - 1);
      LowerRanksUnmoved(arrivals, r, r.Rank() - 1);
      if below != [] {
        assert below[0] in below;
      }
    }
  }

  lemma {:induction false} LowerRanksUnmoved(arrivals: seq<Request>, r: Request, rank: nat)
    requires rank < r.Rank()
    ensures FromRankDown(arrivals + [r], rank) == FromRankDown(arrivals, rank)
    decreases rank
  {
    OfRankAppend(arrivals, [r], rank);
    assert OfRank([r], rank) == [];
    assert OfRank(arrivals, rank) + [] == OfRank(arrivals, rank);
    if rank > 0 {
      LowerRanksUnmoved(arrivals, r, rank - 1);
    }
  }

  // ---------------------------------------------------------------------------------------------
  // Taking from the queue

  ghost predicate FallingRanks(requests: seq<Request>) {
    forall i, j | 0 <= i < j < |requests| :: requests[i].Rank() >= requests[j].Rank()
  }

  lemma {:induction false} PriorityOrderFalls(arrivals: seq<Request>, rank: nat)
    ensures FallingRanks(FromRankDown(arrivals, rank))
    decreases rank
  {
    hide OfRank;
    var own, below := OfRank(arrivals, rank), BelowRank(arrivals, rank);
    OfRankHolds(arrivals, rank);
    if rank > 0 {
      PriorityOrderFalls(arrivals, rank - 1);
      FromRankDownHolds(arrivals, rank - 1);
    }
    var queue := own + below;
    forall i, j | 0 <= i < j < |queue|
      ensures queue[i].Rank() >= queue[j].Rank()
    {
      if i < |own| {
        assert own[i] in own;
        if j < |own| {
          assert own[j] in own;
        } else {
          assert below[j - |own|] in below;
        }
      }
    }
  }

  /** The first permitted request in priority order is of the best rank. */
  lemma {:induction false} FirstPermittedIsBest(queue: seq<Request>, arrivals: seq<Request>,
                                                permitted: PopupParams -> bool)
    requires FallingRanks(queue) && forall r :: r in queue <==> r in arrivals
    ensures
      match FirstPermitted(queue, permitted)
      case None => BestRank(arrivals, permitted) == None
      case Some(at) => BestRank(arrivals, permitted) == Some(queue[at].Rank())
  {
    match FirstPermitted(queue, permitted)
    case None =>
      BestRankIsNone(arrivals, permitted);
    case Some(at) =>
      assert queue[at] in queue;
      forall q | q in arrivals && permitted(q.params)
        ensures q.Rank() <= queue[at].Rank()
      {
        var j :| 0 <= j < |queue| && queue[j] == q;
        assert at <= j;
      }
      BestRankIs(arrivals, permitted, queue[at]);
  }

  lemma {:induction false} BestRankIs(arrivals: seq<Request>, permitted: PopupParams -> bool, r: Request)
    requires r in arrivals && permitted(r.params)
    requires forall q | q in arrivals && permitted(q.params) :: q.Rank() <= r.Rank()
    ensures BestRank(arrivals, permitted) == Some(r.Rank())
  {
  }

  lemma {:induction false} BestRankIsNone(arrivals: seq<Request>, permitted: PopupParams -> bool)
    requires forall q | q in arrivals :: !permitted(q.params)
    ensures BestRank(arrivals, permitted) == None
  {
  }

  lemma {:induction false} NoneOfRank(requests: seq<Request>, rank: nat)
    requires forall r | r in requests :: r.Rank() != rank
    ensures OfRank(requests, rank) == []
    decreases |requests|
  {
    if requests != [] {
      assert requests[0] in requests;
      NoneOfRank(requests[1..], rank);
    }
  }

  lemma {:induction false} OfRankRemoved(arrivals: seq<Request>, at: nat, rank: nat)
    requires at < |arrivals|
    requires forall j | 0 <= j < at :: arrivals[j].Rank() != arrivals[at].Rank()
    ensures rank != arrivals[at].Rank() ==> OfRank(RemovedAt(arrivals, at), rank) == OfRank(arrivals, rank)
    ensures rank == arrivals[at].Rank() ==>
        OfRank(arrivals, rank) == [arrivals[at]] + OfRank(RemovedAt(arrivals, at), rank)
  {
    hide OfRank;
    var front, r, back := arrivals[..at], arrivals[at], arrivals[at + 1..];
    assert arrivals == (front + [r]) + back;
    OfRankAppend(front + [r], back, rank);
    OfRankAppend(front, [r], rank);
    OfRankAppend(front, back, rank);
    OfRankOne(r, rank);
    if rank == r.Rank() {
      NoneOfRank(front, rank);
    }
  }

  lemma {:induction false} FirstOfClassSkips(first: Request, rest: seq<Request>, rank: nat)
    requires first.Rank() != rank
    ensures FirstOfClass([first] + rest, rank) == Shifted(FirstOfClass(rest, rank), 1)
  {
    assert ([first] + rest)[1..] == rest;
  }

  function Shifted(at: Option<nat>, places: nat): Option<nat> {
    match at
    case None => None
    case Some(i) => Some(places + i)
  }

  lemma {:induction false} FirstOfClassPast(front: seq<Request>, back: seq<Request>, rank: nat)
    requires forall q | q in front :: q.Rank() != rank
    ensures FirstOfClass(front + back, rank) == Shifted(FirstOfClass(back, rank), |front|)
    decreases |front|
  {
    hide FirstOfClass;
    if front == [] {
      assert front + back == back;
    } else {
      assert front + back == [front[0]] + (front[1..] + back);
      assert front[0] in front;
      FirstOfClassSkips(front[0], front[1..] + back, rank);
      FirstOfClassPast(front[1..], back, rank);
    }
  }

  lemma {:induction false} LowerRanksKeep(arrivals: seq<Request>, at: nat, rank: nat)
    requires at < |arrivals| && rank < arrivals[at].Rank()
    requires forall j | 0 <= j < at :: arrivals[j].Rank() != arrivals[at].Rank()
    ensures FromRankDown(RemovedAt(arrivals, at), rank) == FromRankDown(arrivals, rank)
    decreases rank
  {
    OfRankRemoved(arrivals, at, rank);
    if rank > 0 {
      LowerRanksKeep(arrivals, at, rank - 1);
    }
  }

  /** Extracting `r`'s class by key yields `r` itself and leaves `left`. */
  predicate Extracts(queue: seq<Request>, r: Request, left: seq<Request>) {
    var at := FirstOfClass(queue, r.Rank());
    at.Some? && queue[at.value] == r && RemovedAt(queue, at.value) == left
  }

  /** Extracting by key from the priority order takes the oldest arrival of that rank. */
  lemma {:induction false} ExtractionTakesOldest(arrivals: seq<Request>, at: nat, rank: nat)
    requires at < |arrivals| && arrivals[at].Rank() <= rank
    requires forall j | 0 <= j < at :: arrivals[j].Rank() != arrivals[at].Rank()
    ensures Extracts(FromRankDown(arrivals, rank), arrivals[at], FromRankDown(RemovedAt(arrivals, at), rank))
    decreases rank
  {
    hide OfRank, Extracts, FirstOfClass, RemovedAt;
    var r, left := arrivals[at], RemovedAt(arrivals, at);
    OfRankRemoved(arrivals, at, rank);
    if r.Rank() == rank {
      ExtractionInClass(r, OfRank(left, rank), BelowRank(arrivals, rank));
      if rank > 0 {
        LowerRanksKeep(arrivals, at, rank - 1);
      }
    } else {
      ExtractionTakesOldest(arrivals, at, rank - 1);
      OfRankHolds(arrivals, rank);
      ExtractionBelow(OfRank(arrivals, rank), BelowRank(arrivals, rank), r, BelowRank(left, rank));
    }
  }

  lemma ExtractionInClass(r: Request, later: seq<Request>, below: seq<Request>)
    ensures Extracts(([r] + later) + below, r, later + below)
  {
  }

  lemma ExtractionBelow(own: seq<Request>, below: seq<Request>, r: Request, left: seq<Request>)
    requires (forall q | q in own :: q.Rank() != r.Rank()) && Extracts(below, r, left)
    ensures Extracts(own + below, r, own + left)
  {
    FirstOfClassPast(own, below, r.Rank());
    var at := FirstOfClass(below, r.Rank()).value;
    assert RemovedAt(own + below, |own| + at) == own + RemovedAt(below, at);
  }

  lemma PriorityOrderHolds(arrivals: seq<Request>)
    ensures forall r :: r in InPriorityOrder(arrivals) <==> r in arrivals
  {
    FromRankDownHolds(arrivals, TOP_RANK);
    forall r: Request
      ensures r.Rank() <= TOP_RANK
    {
    }
  }

  lemma PriorityOrderExtracts(arrivals: seq<Request>, at: nat)
    requires at < |arrivals| && forall j | 0 <= j < at :: arrivals[j].Rank() != arrivals[at].Rank()
    ensures FallingRanks(InPriorityOrder(arrivals))
    ensures Extracts(InPriorityOrder(arrivals), arrivals[at], InPriorityOrder(RemovedAt(arrivals, at)))
  {
    hide FromRankDown, Extracts;
    PriorityOrderFalls(arrivals, TOP_RANK);
    ExtractionTakesOldest(arrivals, at, TOP_RANK);
  }

  lemma {:induction false} PoppedExtracts(queue: seq<Request>, permitted: PopupParams -> bool, r: Request,
                                          left: seq<Request>)
    requires
      var accepted := FirstPermitted(queue, permitted);
      accepted.Some? && queue[accepted.value].Rank() == r.Rank() && Extracts(queue, r, left)
    ensures Popped(queue, permitted) == (left, Some(r))
  {
    hide FirstPermitted, FirstOfClass;
  }

  /**
   Popping returns nothing exactly when nothing is permitted; otherwise it takes the oldest request of the
   highest priority that has a permitted one, and leaves the rest in order.
   */
  lemma PopTakesOldestOfBest(arrivals: seq<Request>, permitted: PopupParams -> bool)
    ensures
      var (requests, request) := Popped(InPriorityOrder(arrivals), permitted);
      var (left, taken) := Taken(arrivals, permitted);
      && requests == InPriorityOrder(left) && request == taken
      && (request.None? <==> forall r | r in arrivals :: !permitted(r.params))
  {
    PriorityOrderHolds(arrivals);
    PriorityOrderFalls(arrivals, TOP_RANK);
    FirstPermittedIsBest(InPriorityOrder(arrivals), arrivals, permitted);
    hide InPriorityOrder, RemovedAt;
    var best := BestRank(arrivals, permitted);
    if best.Some? {
      var r :| r in arrivals && permitted(r.params) && r.Rank() == best.value;
      var at := FirstOfClass(arrivals, best.value);
      assert at.Some?;
      PriorityOrderExtracts(arrivals, at.value);
      PoppedExtracts(InPriorityOrder(arrivals), permitted, arrivals[at.value],
                     InPriorityOrder(RemovedAt(arrivals, at.value)));
    }
  }

  // ---------------------------------------------------------------------------------------------
  // Runs

  datatype QueueOp = PushRequest(r: Request) | PopRequest(permitted: PopupParams -> bool) | Clear

  /** The requests a run of the queue hands out. */
  function QueueRun(requests: seq<Request>, ops: seq<QueueOp>): seq<Option<Request>>
    decreases |ops|
  {
    if ops == [] then []
    else
      match ops[0]
      case PushRequest(r) => QueueRun(Inserted(requests, r), ops[1..])
      case PopRequest(permitted) =>
        var (left, request) := Popped(requests, permitted);
        [request] + QueueRun(left, ops[1..])
      case Clear => QueueRun([], ops[1..])
  }

  /** The requests a run hands out by the plain reading: append on arrival, take the oldest of the best. */
  function ArrivalRun(arrivals: seq<Request>, ops: seq<QueueOp>): seq<Option<Request>>
    decreases |ops|
  {
    if ops == [] then []
    else
      match ops[0]
      case PushRequest(r) => ArrivalRun(arrivals + [r], ops[1..])
      case PopRequest(permitted) =>
        var (left, taken) := Taken(arrivals, permitted);
        [taken] + ArrivalRun(left, ops[1..])
      case Clear => ArrivalRun([], ops[1..])
  }

  /** Over any run the ordered multiset hands out what the plain reading does, filters changing as they may. */
  lemma {:induction false} QueueRunIsArrivalRun(arrivals: seq<Request>, ops: seq<QueueOp>)
    ensures QueueRun(InPriorityOrder(arrivals), ops) == ArrivalRun(arrivals, ops)
    decreases |ops|
  {
    if ops != [] {
      match ops[0]
      case PushRequest(r) =>
        InsertionIsArrival(arrivals, r);
        QueueRunIsArrivalRun(arrivals + [r], ops[1..]);
      case PopRequest(permitted) =>
        PopTakesOldestOfBest(arrivals, permitted);
        QueueRunIsArrivalRun(Taken(arrivals, permitted).0, ops[1..]);
      case Clear =>
        NothingInOrder(TOP_RANK);
        QueueRunIsArrivalRun([], ops[1..]);
    }
  }

  lemma {:induction false} NothingInOrder(rank: nat)
    ensures FromRankDown([], rank) == []
    decreases rank
  {
    if rank > 0 {
      NothingInOrder(rank - 1);
    }
  }

  // ---------------------------------------------------------------------------------------------
  // Whether the result is permitted

  predicate PopsPermitted(arrivals: seq<Request>, permitted: PopupParams -> bool) {
    var request := Popped(InPriorityOrder(arrivals), permitted).1;
    request.Some? && permitted(request.value.params)
  }

  /**
   Under any filter, a permitted request is popped in whatever order the requests arrive, exactly when every
   request of the highest priority that has a permitted one is itself permitted.
   */
  lemma {:induction false} PopsPermittedInEveryOrderIff(arrivals: seq<Request>, permitted: PopupParams -> bool,
                                                        rank: nat)
    requires BestRank(arrivals, permitted) == Some(rank)
    ensures (forall order: seq<Request> | multiset(order) == multiset(arrivals) :: PopsPermitted(order, permitted))
       <==> forall r | r in arrivals && r.Rank() == rank :: permitted(r.params)
  {
    hide Popped, InPriorityOrder;
    if forall r | r in arrivals && r.Rank() == rank :: permitted(r.params) {
      forall order: seq<Request> | multiset(order) == multiset(arrivals)
        ensures PopsPermitted(order, permitted)
      {
        PopsOldestOfBest(arrivals, order, permitted, rank);
      }
    } else {
      var r :| r in arrivals && r.Rank() == rank && !permitted(r.params);
      var order := ArrivingFirst(arrivals, r);
      PopsOldestOfBest(arrivals, order, permitted, rank);
      assert FirstOfClass(order, rank) == Some(0);
      assert !PopsPermitted(order, permitted);
    }
  }

  lemma {:induction false} PopsOldestOfBest(arrivals: seq<Request>, order: seq<Request>,
                                              permitted: PopupParams -> bool, rank: nat)
    requires multiset(order) == multiset(arrivals) && BestRank(arrivals, permitted) == Some(rank)
    ensures
      var at := FirstOfClass(order, rank);
      && at.Some? && order[at.value] in arrivals
      && Popped(InPriorityOrder(order), permitted).1 == Some(order[at.value])
  {
    hide Popped, InPriorityOrder, FirstOfClass;
    SameRequests(arrivals, order);
    var best :| best in arrivals && permitted(best.params) && best.Rank() == rank;
    BestRankIs(order, permitted, best);
    PopTakesOldestOfBest(order, permitted);
    assert FirstOfClass(order, rank).Some?;
    assert order[FirstOfClass(order, rank).value] in order;
  }

  lemma SameRequests(a: seq<Request>, b: seq<Request>)
    requires multiset(a) == multiset(b)
    ensures forall r :: r in a <==> r in b
  {
    assert forall r :: r in a <==> r in multiset(a);
    assert forall r :: r in b <==> r in multiset(b);
  }

  lemma ArrivingFirst(arrivals: seq<Request>, r: Request) returns (order: seq<Request>)
    requires r in arrivals
    ensures multiset(order) == multiset(arrivals) && order != [] && order[0] == r
  {
    var at :| 0 <= at < |arrivals| && arrivals[at] == r;
    order := [r] + RemovedAt(arrivals, at);
    assert arrivals == arrivals[..at] + [r] + arrivals[at + 1..];
  }

  /** The filter treats the requests of the highest priority that has a permitted one alike. */
  predicate AgreesOnBest(arrivals: seq<Request>, permitted: PopupParams -> bool) {
    var best := BestRank(arrivals, permitted);
    best.Some? ==>
      forall a, b | a in arrivals && b in arrivals && a.Rank() == b.Rank() == best.value ::
        permitted(a.params) == permitted(b.params)
  }

  lemma PoppedIsPermittedIfAgreed(arrivals: seq<Request>, permitted: PopupParams -> bool)
    requires AgreesOnBest(arrivals, permitted)
    ensures
      var request := Popped(InPriorityOrder(arrivals), permitted).1;
      request.Some? ==> permitted(request.value.params)
  {
    hide Popped, InPriorityOrder, FirstOfClass;
    var best := BestRank(arrivals, permitted);
    if best.Some? {
      var r :| r in arrivals && permitted(r.params) && r.Rank() == best.value;
      PopsPermittedInEveryOrderIff(arrivals, permitted, best.value);
      assert PopsPermitted(arrivals, permitted);
    } else {
      PopTakesOldestOfBest(arrivals, permitted);
    }
  }
}
