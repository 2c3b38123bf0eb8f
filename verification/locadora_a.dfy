/** The first rental company (class `Main` of rental_service.py). Its query
    path is the same code as `RentalService`'s (available cars, their count,
    the reply, send-then-acknowledge, answer only "QTY"), so it is modelled as
    a `RentalService.Service` with this company's fixed name, URL and
    inventory, and what that inventory yields is proved here. */
module LocadoraA {
  import opened Messages
  import opened RentalService

  const ServiceName: string := "Locadora A - Centro"
  const ApiUrl: string := "http://api.locadora-a.com.br/rental"

  /** The inventory `Main.__init__` sets up; car 3 (the Lamborghini) is
      rented at construction time `now`. */
  function Inventory(now: Stamp): seq<Car> {
    [ Car("2023/Ferrari/F8 Tributo", 350000, None),
      Car("2024/McLaren/720S", 320000, None),
      Car("2022/Lamborghini/Huracan", 400000, Some(now)),
      Car("2023/Porsche/911 Turbo S", 280000, None) ]
  }

  /** `Main()`: the service with its fixed identity and inventory. */
  function Centro(now: Stamp): Service {
    Service(ServiceName, ApiUrl, Inventory(now))
  }

  /** The three cars this company advertises, in inventory order. */
  function Advertised(): seq<Offer> {
    [ Offer("2023/Ferrari/F8 Tributo", 350000),
      Offer("2024/McLaren/720S", 320000),
      Offer("2023/Porsche/911 Turbo S", 280000) ]
  }

  /** Exactly one car is rented, so the reply carries the fixed name and URL
      and lists the other three with a count of 3. */
  lemma FixedReply(now: Stamp)
    ensures |Inventory(now)| - AvailableCount(Inventory(now)) == 1
    ensures QtyReply(Centro(now)) == Reply(ServiceName, ApiUrl, 3, Advertised())
  {
    var inv := Inventory(now);
    assert inv[..1][..0] == [] && inv[..2][..1] == inv[..1] && inv[..3][..2] == inv[..2];
    assert inv[..4][..3] == inv[..3] && inv[..4] == inv;
    var f := Offer("2023/Ferrari/F8 Tributo", 350000);
    var m := Offer("2024/McLaren/720S", 320000);
    assert AvailableCars(inv[..1]) == [f] && AvailableCount(inv[..1]) == 1;
    assert AvailableCars(inv[..2]) == [f, m] && AvailableCount(inv[..2]) == 2;
    assert AvailableCars(inv[..3]) == [f, m] && AvailableCount(inv[..3]) == 2;
  }

  /** `Main.run`: the command "QTY" makes the company send exactly that reply
      (and then wait for its acknowledgement); any other command sends
      nothing. */
  lemma RunAnswersOnlyQuery(now: Stamp, message: string)
    ensures Sent(Run(Centro(now), message)) ==
      if message == QueryCommand then [Reply(ServiceName, ApiUrl, 3, Advertised())] else []
    ensures Lockstep(Run(Centro(now), message))
  {
    FixedReply(now);
  }
}
