/** The aggregator (class `RentalAggregator` of aggregator.py): it publishes
    "QTY", collects up to `num_responses` replies on its reply socket,
    acknowledging each, and summarises what it collected: how many companies
    answered, how many cars they advertise in total, and the cheapest car.

    The reply socket is abstracted as the sequence of outcomes its successive
    receives would yield; once that sequence is used up, a receive times
    out, as the real socket does after its receive timeout. What the
    aggregator does on its sockets is returned as a log of events. */
module Aggregator {
  import opened Messages

  /** What one receive on the reply socket yields: a reply, the receive
      timeout (`zmq.Again`), or any other exception raised before the reply
      is appended (a reply that cannot be unpickled, or a dictionary missing
      a key the loop prints). */
  datatype Outcome = Got(reply: Reply) | Timeout | Failure

  /** What the aggregator does on its sockets, in order. */
  datatype Event = Published(command: string) | Receive(outcome: Outcome) | SentAck(token: string)

  /** An entry of `all_cars`: `{locadora, nome, valor}`. */
  datatype Listing = Listing(rental: string, name: string, price: int)

  /** What `display_summary` reports: companies that answered, total cars,
      and the cheapest car when the total is positive. */
  datatype Summary = Summary(rentals: nat, totalCars: int, cheapest: Option<Listing>)

  /** `min` of an empty list raises; nothing in `display_summary` or its
      callers catches it. */
  datatype SummaryError = EmptyMin

  datatype Result<T> = Ok(value: T) | Err(error: SummaryError)

  // ---------------------------------------------------------------------
  // The collect loop of `request_availability`
  // ---------------------------------------------------------------------

  /** The number of iterations of `range(n)`. */
  function Bound(n: int): nat {
    if n < 0 then 0 else n
  }

  /** What the `k`-th receive yields; past the end of the abstract inbox
      nothing arrives and the receive times out. */
  function NextOutcome(inbox: seq<Outcome>, k: nat): Outcome {
    if k < |inbox| then inbox[k] else Timeout
  }

  /** The replies a collection round keeps: receive one, keep it and go on
      while fewer than `n` were asked for; stop at the first timeout or
      failure. */
  function Collected(n: int, inbox: seq<Outcome>): seq<Reply>
    decreases Bound(n)
  {
    if n <= 0 || |inbox| == 0 || !inbox[0].Got? then []
    else [inbox[0].reply] + Collected(n - 1, inbox[1..])
  }

  /** The three facts that pin a collection down: it has at most `n`
      replies, they are the first outcomes of the inbox in arrival order,
      and if it is shorter than `n` the next receive was not a reply. */
  predicate IsCollection(n: int, inbox: seq<Outcome>, rs: seq<Reply>) {
    |rs| <= Bound(n) &&
    (forall k :: 0 <= k < |rs| ==> NextOutcome(inbox, k) == Got(rs[k])) &&
    (|rs| < n ==> !NextOutcome(inbox, |rs|).Got?)
  }

  /** `Collected` is exactly the sequence with the three properties above:
      the bound, order preservation and truncation at the first non-reply
      characterise it. */
  lemma {:induction false} CollectedCharacterized(n: int, inbox: seq<Outcome>, rs: seq<Reply>)
    ensures rs == Collected(n, inbox) <==> IsCollection(n, inbox, rs)
    decreases Bound(n)
  {
    if n <= 0 || |inbox| == 0 || !inbox[0].Got? {
      if |rs| > 0 {
        assert !IsCollection(n, inbox, rs) by {
          if n > 0 {
            assert !NextOutcome(inbox, 0).Got?;
          }
        }
      }
    } else {
      var tail := inbox[1..];
      forall k: nat ensures NextOutcome(tail, k) == NextOutcome(inbox, k + 1) { }
      if rs == [] {
        assert NextOutcome(inbox, 0).Got?;
      } else {
        CollectedCharacterized(n - 1, tail, rs[1..]);
        if IsCollection(n, inbox, rs) {
          assert NextOutcome(inbox, 0) == Got(rs[0]);
          forall k | 0 <= k < |rs[1..]|
            ensures NextOutcome(tail, k) == Got(rs[1..][k])
          {
            assert NextOutcome(inbox, k + 1) == Got(rs[k + 1]);
          }
          assert IsCollection(n - 1, tail, rs[1..]);
          assert rs == [rs[0]] + rs[1..];
        }
        if rs == Collected(n, inbox) {
          assert IsCollection(n - 1, tail, rs[1..]);
          forall k | 0 <= k < |rs|
            ensures NextOutcome(inbox, k) == Got(rs[k])
          {
            if k > 0 {
              assert NextOutcome(tail, k - 1) == Got(rs[1..][k - 1]);
            }
          }
        }
      }
    }
  }

  /** The receive/acknowledge pairs of the collected replies, in order. */
  function Handshakes(rs: seq<Reply>): seq<Event> {
    if rs == [] then []
    else Handshakes(rs[..|rs| - 1]) + [Receive(Got(rs[|rs| - 1])), SentAck(AckToken)]
  }

  /** Every collected reply is received and then acknowledged exactly once,
      and nothing else happens in between: the `2k`-th event receives the
      `k`-th reply and the next one acknowledges it. */
  lemma {:induction false} HandshakePairing(rs: seq<Reply>)
    ensures |Handshakes(rs)| == 2 * |rs|
    ensures forall k :: 0 <= k < |rs| ==>
      Handshakes(rs)[2 * k] == Receive(Got(rs[k])) && Handshakes(rs)[2 * k + 1] == SentAck(AckToken)
  {
    if rs != [] {
      var init := rs[..|rs| - 1];
      HandshakePairing(init);
      forall k | 0 <= k < |rs|
        ensures Handshakes(rs)[2 * k] == Receive(Got(rs[k])) && Handshakes(rs)[2 * k + 1] == SentAck(AckToken)
      {
        if k < |init| {
          assert init[k] == rs[k];
        }
      }
    }
  }

  /** The number of acknowledgements in a log. */
  function Acks(log: seq<Event>): nat {
    if log == [] then 0
    else Acks(log[..|log| - 1]) + (if log[|log| - 1].SentAck? then 1 else 0)
  }

  /** The number of receives attempted in a log. */
  function Receives(log: seq<Event>): nat {
    if log == [] then 0
    else Receives(log[..|log| - 1]) + (if log[|log| - 1].Receive? then 1 else 0)
  }

  lemma {:induction false} CountsAppend(a: seq<Event>, b: seq<Event>)
    ensures Acks(a + b) == Acks(a) + Acks(b)
    ensures Receives(a + b) == Receives(a) + Receives(b)
  {
    if b != [] {
      assert (a + b)[..|a + b| - 1] == a + b[..|b| - 1];
      CountsAppend(a, b[..|b| - 1]);
    } else {
      assert a + b == a;
    }
  }

  /** As many acknowledgements as collected replies, and as many receives. */
  lemma {:induction false} HandshakeCounts(rs: seq<Reply>)
    ensures Acks(Handshakes(rs)) == |rs| && Receives(Handshakes(rs)) == |rs|
  {
    if rs != [] {
      var init := rs[..|rs| - 1];
      HandshakeCounts(init);
      var pair := [Receive(Got(rs[|rs| - 1])), SentAck(AckToken)];
      CountsAppend(Handshakes(init), pair);
      assert pair[..1][..0] == [] && pair[..|pair| - 1] == pair[..1];
      assert Acks(pair[..1]) == 0 && Receives(pair[..1]) == 1;
    }
  }

  /** `request_availability(num_responses)`: publish "QTY"; then, for at
      most `num_responses` iterations, receive; on a reply append it and
      acknowledge it; on a timeout or any other failure stop at once; then
      summarise what was collected. */
  method RequestAvailability(numResponses: int, inbox: seq<Outcome>)
    returns (rentals: seq<Reply>, log: seq<Event>, summary: Result<Summary>)
    ensures |rentals| <= Bound(numResponses)
    ensures forall k :: 0 <= k < |rentals| ==> NextOutcome(inbox, k) == Got(rentals[k])
    ensures |rentals| < numResponses ==> !NextOutcome(inbox, |rentals|).Got?
    ensures rentals == Collected(numResponses, inbox)
    ensures log == [Published(QueryCommand)] + Handshakes(rentals) +
      (if |rentals| < numResponses then [Receive(NextOutcome(inbox, |rentals|))] else [])
    ensures Acks(log) == |rentals|
    ensures Receives(log) == if |rentals| < numResponses then |rentals| + 1 else |rentals|
    ensures summary == Summarize(rentals)
  {
    log := [Published(QueryCommand)];
    rentals := [];
    var i := 0;
    while i < numResponses
      invariant i == |rentals| <= Bound(numResponses)
      invariant forall k :: 0 <= k < i ==> NextOutcome(inbox, k) == Got(rentals[k])
      invariant log == [Published(QueryCommand)] + Handshakes(rentals)
    {
      var outcome := NextOutcome(inbox, i);
      match outcome {
        case Got(r) =>
          assert (rentals + [r])[..|rentals|] == rentals;
          rentals := rentals + [r];
          log := log + [Receive(outcome), SentAck(AckToken)];
        case Timeout =>
          log := log + [Receive(outcome)];
          break;
        case Failure =>
          log := log + [Receive(outcome)];
          break;
      }
      i := i + 1;
    }
    CollectedCharacterized(numResponses, inbox, rentals);
    HandshakeCounts(rentals);
    CountsAppend([Published(QueryCommand)], Handshakes(rentals));
    assert [Published(QueryCommand)][..0] == [];
    if |rentals| < numResponses {
      var failed := [Receive(NextOutcome(inbox, |rentals|))];
      CountsAppend([Published(QueryCommand)] + Handshakes(rentals), failed);
      assert failed[..0] == [];
    } else {
      assert log + [] == log;
    }
    summary := DisplaySummary(rentals);
  }

  // ---------------------------------------------------------------------
  // The consolidated summary of `display_summary`
  // ---------------------------------------------------------------------

  /** `sum(rental['count'] for rental in rentals)`. */
  function TotalCars(rs: seq<Reply>): int {
    if rs == [] then 0 else TotalCars(rs[..|rs| - 1]) + rs[|rs| - 1].count
  }

  /** The `all_cars` entry for car `j` of reply `r`. */
  function ListingOf(r: Reply, j: nat): Listing
    requires j < |r.cars|
  {
    Listing(r.serviceName, r.cars[j].name, r.cars[j].price)
  }

  /** The `all_cars` entries of one reply, in list order. */
  function Tag(r: Reply): seq<Listing> {
    seq(|r.cars|, j requires 0 <= j < |r.cars| => ListingOf(r, j))
  }

  /** `all_cars`: every car of every reply, reply order first, then list
      order, each tagged with the name of the company that sent it. */
  function Flatten(rs: seq<Reply>): seq<Listing> {
    if rs == [] then [] else Flatten(rs[..|rs| - 1]) + Tag(rs[|rs| - 1])
  }

  /** Python's `min(xs, key=valor)`: scanning left to right, a later entry
      replaces the current best only when strictly cheaper, so the result is
      the first entry of minimal price. */
  function MinIndex(xs: seq<Listing>): (m: nat)
    requires |xs| > 0
    ensures m < |xs|
    ensures forall j :: 0 <= j < |xs| ==> xs[m].price <= xs[j].price
    ensures forall j :: 0 <= j < m ==> xs[j].price > xs[m].price
  {
    if |xs| == 1 then 0
    else
      var m := MinIndex(xs[..|xs| - 1]);
      if xs[|xs| - 1].price < xs[m].price then |xs| - 1 else m
  }

  /** The first-minimum property determines `min`'s choice. */
  lemma FirstMinimumUnique(xs: seq<Listing>, m: nat)
    requires m < |xs|
    requires forall j :: 0 <= j < |xs| ==> xs[m].price <= xs[j].price
    requires forall j :: 0 <= j < m ==> xs[j].price > xs[m].price
    ensures MinIndex(xs) == m
  {
  }

  lemma FlattenPair(a: Reply, b: Reply)
    ensures Flatten([a]) == Tag(a) && Flatten([a, b]) == Tag(a) + Tag(b)
    ensures TotalCars([a]) == a.count && TotalCars([a, b]) == a.count + b.count
  {
    assert [a, b][..1] == [a] && [a][..0] == [];
  }

  /** `display_summary`: the totals, and the cheapest car only when the total
      count is positive; `min` raises exactly when that total is positive but
      every car list is empty. */
  function Summarize(rs: seq<Reply>): (s: Result<Summary>)
    ensures s.Ok? ==> s.value.rentals == |rs| && s.value.totalCars == TotalCars(rs)
    ensures s.Ok? ==> (s.value.cheapest.Some? <==> TotalCars(rs) > 0)
    ensures s.Err? <==> TotalCars(rs) > 0 && forall i :: 0 <= i < |rs| ==> rs[i].cars == []
  {
    FlattenEmpty(rs);
    var total := TotalCars(rs);
    if total > 0 then
      var all := Flatten(rs);
      if all == [] then Err(EmptyMin)
      else Ok(Summary(|rs|, total, Some(all[MinIndex(all)])))
    else
      Ok(Summary(|rs|, total, None))
  }

  /** `all_cars` is empty exactly when every reply's car list is. */
  lemma {:induction false} FlattenEmpty(rs: seq<Reply>)
    ensures Flatten(rs) == [] <==> forall i :: 0 <= i < |rs| ==> rs[i].cars == []
  {
    if rs != [] {
      var init := rs[..|rs| - 1];
      FlattenEmpty(init);
      assert forall i :: 0 <= i < |init| ==> init[i] == rs[i];
      assert |Tag(rs[|rs| - 1])| == |rs[|rs| - 1].cars|;
    }
  }

  /** Car `j` of reply `i` sits in `all_cars` at position
      `|Flatten(rs[..i])| + j`. */
  lemma {:induction false} FlattenAt(rs: seq<Reply>, i: nat, j: nat)
    requires i < |rs| && j < |rs[i].cars|
    ensures |Flatten(rs[..i])| + j < |Flatten(rs)|
    ensures Flatten(rs)[|Flatten(rs[..i])| + j] == ListingOf(rs[i], j)
  {
    var init := rs[..|rs| - 1];
    if i == |rs| - 1 {
      assert rs[..i] == init;
    } else {
      assert init[..i] == rs[..i] && init[i] == rs[i];
      FlattenAt(init, i, j);
    }
  }

  /** Car `j` of reply `i` is at position `k` of `all_cars`. */
  predicate PlacedAt(rs: seq<Reply>, i: int, j: int, k: int) {
    0 <= i < |rs| && 0 <= j < |rs[i].cars| && |Flatten(rs[..i])| + j == k
  }

  /** Every position of `all_cars` comes from some car of some reply. */
  lemma {:induction false} FlattenOrigin(rs: seq<Reply>, k: nat)
    requires k < |Flatten(rs)|
    ensures exists i, j :: PlacedAt(rs, i, j, k)
  {
    var init := rs[..|rs| - 1];
    if k < |Flatten(init)| {
      FlattenOrigin(init, k);
      var i, j :| PlacedAt(init, i, j, k);
      assert init[..i] == rs[..i] && init[i] == rs[i];
      assert PlacedAt(rs, i, j, k);
    } else {
      var i := |rs| - 1;
      assert rs[..i] == init;
      assert PlacedAt(rs, i, k - |Flatten(init)|, k);
    }
  }

  /** Replies earlier in arrival order occupy earlier positions of
      `all_cars`. */
  lemma {:induction false} FlattenPrefixGrows(rs: seq<Reply>, a: nat, b: nat)
    requires a < b <= |rs|
    ensures |Flatten(rs[..a])| + |rs[a].cars| <= |Flatten(rs[..b])|
    decreases b
  {
    assert rs[..b][..b - 1] == rs[..b - 1];
    if a < b - 1 {
      FlattenPrefixGrows(rs, a, b - 1);
    }
  }

  /** Car `j` of reply `i` is the cheapest car that `min` picks: no car is
      cheaper, and every car before it in reply-then-list order is strictly
      dearer. */
  predicate IsFirstCheapest(rs: seq<Reply>, i: int, j: int)
  {
    0 <= i < |rs| && 0 <= j < |rs[i].cars| &&
    (forall i', j' :: 0 <= i' < |rs| && 0 <= j' < |rs[i'].cars| ==>
       rs[i].cars[j].price <= rs[i'].cars[j'].price) &&
    (forall i', j' :: 0 <= i' < |rs| && 0 <= j' < |rs[i'].cars| && (i' < i || (i' == i && j' < j)) ==>
       rs[i'].cars[j'].price > rs[i].cars[j].price)
  }

  /** The reported cheapest car is a car of a collected reply, tagged with
      that reply's company name, priced at most every collected car, and the
      first such car in reply-then-list order. */
  lemma CheapestIsFirstMinimum(rs: seq<Reply>)
    requires Summarize(rs).Ok? && Summarize(rs).value.cheapest.Some?
    ensures exists i, j ::
      (IsFirstCheapest(rs, i, j) && Summarize(rs).value.cheapest.value == ListingOf(rs[i], j))
  {
    var all := Flatten(rs);
    var m := MinIndex(all);
    FlattenOrigin(rs, m);
    var i, j :| PlacedAt(rs, i, j, m);
    FlattenAt(rs, i, j);
    forall i', j' | 0 <= i' < |rs| && 0 <= j' < |rs[i'].cars|
      ensures rs[i].cars[j].price <= rs[i'].cars[j'].price
      ensures (i' < i || (i' == i && j' < j)) ==> rs[i'].cars[j'].price > rs[i].cars[j].price
    {
      FlattenAt(rs, i', j');
      if i' < i {
        FlattenPrefixGrows(rs, i', i);
      }
    }
    assert IsFirstCheapest(rs, i, j);
  }

  /** When every reply is consistent (as every provider's is), the total is
      the number of listed cars, so `min` never sees an empty list and a
      cheapest car is reported exactly when some company lists one. */
  lemma {:induction false} ConsistentNeverRaises(rs: seq<Reply>)
    requires forall i :: 0 <= i < |rs| ==> Consistent(rs[i])
    ensures TotalCars(rs) == |Flatten(rs)|
    ensures Summarize(rs).Ok?
    ensures Summarize(rs).value.cheapest.Some? <==> exists i :: 0 <= i < |rs| && rs[i].cars != []
  {
    if rs != [] {
      var init := rs[..|rs| - 1];
      assert forall i :: 0 <= i < |init| ==> init[i] == rs[i];
      ConsistentNeverRaises(init);
    }
    FlattenEmpty(rs);
  }

  /** The nested loops of `display_summary` that build `all_cars`, then the
      total and the first-minimum selection. */
  method DisplaySummary(rentals: seq<Reply>) returns (s: Result<Summary>)
    ensures s == Summarize(rentals)
  {
    var totalCars := TotalCars(rentals);
    var totalRentals := |rentals|;
    if totalCars > 0 {
      var allCars: seq<Listing> := [];
      for i := 0 to |rentals|
        invariant allCars == Flatten(rentals[..i])
      {
        var rental := rentals[i];
        for j := 0 to |rental.cars|
          invariant allCars == Flatten(rentals[..i]) + Tag(rental)[..j]
        {
          var car := rental.cars[j];
          assert Tag(rental)[..j + 1] == Tag(rental)[..j] + [ListingOf(rental, j)];
          allCars := allCars + [Listing(rental.serviceName, car.name, car.price)];
        }
        assert Tag(rental)[..|rental.cars|] == Tag(rental);
        assert rentals[..i + 1][..i] == rentals[..i];
      }
      assert rentals[..|rentals|] == rentals;
      if allCars == [] {
        s := Err(EmptyMin);
      } else {
        var cheapest := allCars[MinIndex(allCars)];
        s := Ok(Summary(totalRentals, totalCars, Some(cheapest)));
      }
    } else {
      s := Ok(Summary(totalRentals, totalCars, None));
    }
  }
}
