/** A rental company's side of the protocol (class `RentalService` of
    rental_service2.py): it keeps a fixed inventory, answers the "QTY"
    command with the cars not currently rented, and then waits for one
    acknowledgement. The inventory is read-only on this path, so a service is
    a value and every operation is a function of it. */
module RentalService {
  import opened Messages

  /** A point in time as produced by `datetime.now()`; only whether a car has
      one matters. */
  type Stamp = int

  /** An inventory car `{nome, valor, alugado}`; `rentedSince` is `alugado`. */
  datatype Car = Car(name: string, price: int, rentedSince: Option<Stamp>)

  /** A provider instance: its identity and its inventory (`self.cars`). */
  datatype Service = Service(serviceName: string, apiUrl: string, cars: seq<Car>)

  /** What the provider does on its request socket while answering. */
  datatype Action = SendReply(reply: Reply) | AwaitAck

  predicate IsAvailable(c: Car) {
    c.rentedSince.None?
  }

  function Project(c: Car): Offer {
    Offer(c.name, c.price)
  }

  /** `get_available_cars`: the available cars, in inventory order, cut down
      to name and price. */
  function AvailableCars(cars: seq<Car>): (r: seq<Offer>)
    ensures |r| <= |cars|
  {
    if cars == [] then []
    else
      var last := cars[|cars| - 1];
      AvailableCars(cars[..|cars| - 1]) + (if IsAvailable(last) then [Project(last)] else [])
  }

  /** `get_available_count`: how many cars are available. */
  function AvailableCount(cars: seq<Car>): (n: nat)
    ensures n <= |cars|
  {
    if cars == [] then 0
    else AvailableCount(cars[..|cars| - 1]) + (if IsAvailable(cars[|cars| - 1]) then 1 else 0)
  }

  /** The inventory positions of the available cars, in increasing order: the
      witness that `AvailableCars` is a filter followed by a projection. */
  ghost function AvailableIndices(cars: seq<Car>): seq<nat>
  {
    if cars == [] then []
    else AvailableIndices(cars[..|cars| - 1]) + (if IsAvailable(cars[|cars| - 1]) then [|cars| - 1] else [])
  }

  /** The count and the list use the same predicate, so they agree. */
  lemma {:induction false} CountMatchesList(cars: seq<Car>)
    ensures AvailableCount(cars) == |AvailableCars(cars)|
  {
    if cars != [] {
      CountMatchesList(cars[..|cars| - 1]);
    }
  }

  /** `AvailableCars` keeps exactly the available cars, in inventory order,
      each projected to name and price: position `k` of the result is the car
      at inventory position `idx[k]`, the positions increase, each one holds
      an available car, and every available car is among them. */
  lemma {:induction false} AvailableCarsFilter(cars: seq<Car>)
    ensures var r, idx := AvailableCars(cars), AvailableIndices(cars);
      |idx| == |r| &&
      (forall k :: 0 <= k < |idx| ==>
         idx[k] < |cars| && IsAvailable(cars[idx[k]]) && r[k] == Project(cars[idx[k]])) &&
      (forall k, l :: 0 <= k < l < |idx| ==> idx[k] < idx[l]) &&
      (forall i :: 0 <= i < |cars| && IsAvailable(cars[i]) ==> i in idx)
  {
    if cars != [] {
      var init := cars[..|cars| - 1];
      AvailableCarsFilter(init);
      var r0, idx0 := AvailableCars(init), AvailableIndices(init);
      var r, idx := AvailableCars(cars), AvailableIndices(cars);
      forall k | 0 <= k < |idx0|
        ensures idx[k] == idx0[k] && r[k] == r0[k] && cars[idx0[k]] == init[idx0[k]]
      {
      }
      forall i | 0 <= i < |cars| && IsAvailable(cars[i])
        ensures i in idx
      {
        if i < |cars| - 1 {
          assert init[i] == cars[i];
          assert i in idx0;
        } else {
          assert idx[|idx| - 1] == i;
        }
      }
    }
  }

  /** `handle_qty_command`'s reply: the service's own name and URL, the
      available cars, and a count that matches the list. */
  function QtyReply(s: Service): (r: Reply)
    ensures Consistent(r)
    ensures r.serviceName == s.serviceName && r.apiUrl == s.apiUrl
    ensures r.cars == AvailableCars(s.cars)
  {
    CountMatchesList(s.cars);
    Reply(s.serviceName, s.apiUrl, AvailableCount(s.cars), AvailableCars(s.cars))
  }

  /** The replies a provider puts on the wire, in order. */
  function Sent(t: seq<Action>): seq<Reply>
  {
    if t == [] then []
    else Sent(t[..|t| - 1]) + (if t[|t| - 1].SendReply? then [t[|t| - 1].reply] else [])
  }

  /** The discipline of a request socket: sends and receives strictly
      alternate, starting with a send, and every send is answered. */
  predicate Lockstep(t: seq<Action>) {
    |t| % 2 == 0 && forall k :: 0 <= k < |t| ==> (t[k].SendReply? <==> k % 2 == 0)
  }

  /** `handle_qty_command`: exactly one reply sent, then exactly one
      acknowledgement awaited. */
  function HandleQty(s: Service): (t: seq<Action>)
    ensures Lockstep(t) && |t| == 2
    ensures Sent(t) == [QtyReply(s)]
  {
    var t := [SendReply(QtyReply(s)), AwaitAck];
    assert t[..1][..0] == [] && t[..1][0] == t[0] && t[..|t| - 1] == t[..1];
    assert Sent(t[..1]) == [QtyReply(s)];
    t
  }

  /** `run`: one command is received from the broadcast channel; only "QTY"
      is answered, anything else leaves the socket untouched. */
  function Run(s: Service, message: string): (t: seq<Action>)
    ensures Lockstep(t)
    ensures Sent(t) == if message == QueryCommand then [QtyReply(s)] else []
    ensures message != QueryCommand ==> t == []
  {
    if message == QueryCommand then HandleQty(s) else []
  }

  /** The inventory `RentalService.__init__` sets up; car 2 (the Corvette) is
      rented at construction time `now`. */
  function Inventory(now: Stamp): seq<Car> {
    [ Car("2024/Aston Martin/DB11", 380000, None),
      Car("2023/Corvette/C8 Stingray", 250000, Some(now)),
      Car("2022/Nissan/GT-R", 220000, None),
      Car("2023/Audi/R8 V10", 330000, None),
      Car("2024/BMW/M4 Competition", 180000, None) ]
  }

  /** `RentalService(service_name, api_url)`. */
  function New(serviceName: string, apiUrl: string, now: Stamp): Service {
    Service(serviceName, apiUrl, Inventory(now))
  }

  /** The instance the module's entry point starts. */
  function LocadoraB(now: Stamp): Service {
    New("Locadora B - Aeroporto", "http://api.locadora-b.com.br/rental", now)
  }

  /** With the fixed inventory exactly one car is rented, so the reply lists
      the other four, in inventory order. */
  lemma FixedInventoryReply(serviceName: string, apiUrl: string, now: Stamp)
    ensures |Inventory(now)| - AvailableCount(Inventory(now)) == 1
    ensures QtyReply(New(serviceName, apiUrl, now)) ==
      Reply(serviceName, apiUrl, 4,
            [ Offer("2024/Aston Martin/DB11", 380000),
              Offer("2022/Nissan/GT-R", 220000),
              Offer("2023/Audi/R8 V10", 330000),
              Offer("2024/BMW/M4 Competition", 180000) ])
  {
    var inv := Inventory(now);
    assert inv[..1][..0] == [] && inv[..2][..1] == inv[..1] && inv[..3][..2] == inv[..2];
    assert inv[..4][..3] == inv[..3] && inv[..5][..4] == inv[..4] && inv[..5] == inv;
    var a := Offer("2024/Aston Martin/DB11", 380000);
    var n := Offer("2022/Nissan/GT-R", 220000);
    var au := Offer("2023/Audi/R8 V10", 330000);
    assert AvailableCars(inv[..1]) == [a] && AvailableCount(inv[..1]) == 1;
    assert AvailableCars(inv[..2]) == [a] && AvailableCount(inv[..2]) == 1;
    assert AvailableCars(inv[..3]) == [a, n] && AvailableCount(inv[..3]) == 2;
    assert AvailableCars(inv[..4]) == [a, n, au] && AvailableCount(inv[..4]) == 3;
  }
}
