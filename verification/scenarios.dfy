/** The two sides together: the guarantee the aggregator silently relies on
    (every provider's count matches its list, so `min` never sees an empty
    list), and what a round over the two deployed companies reports. */
module Scenarios {
  import opened Messages
  import RentalService
  import LocadoraA
  import opened Aggregator

  /** A round in which every reply that arrives was built by a provider's
      `handle_qty_command` never makes `display_summary` raise, and its total
      is the number of cars listed. */
  lemma ProviderRoundNeverRaises(n: int, inbox: seq<Outcome>, services: seq<RentalService.Service>)
    requires |services| == |inbox|
    requires forall k :: 0 <= k < |inbox| && inbox[k].Got? ==>
      inbox[k].reply == RentalService.QtyReply(services[k])
    ensures Summarize(Collected(n, inbox)).Ok?
    ensures TotalCars(Collected(n, inbox)) == |Flatten(Collected(n, inbox))|
  {
    var rs := Collected(n, inbox);
    CollectedCharacterized(n, inbox, rs);
    forall i | 0 <= i < |rs|
      ensures Consistent(rs[i])
    {
      assert NextOutcome(inbox, i) == Got(rs[i]);
    }
    ConsistentNeverRaises(rs);
  }

  /** Company A alone: three cars, the cheapest the Porsche at 2800.00. */
  lemma CentroCheapest(now: RentalService.Stamp)
    ensures Summarize([RentalService.QtyReply(LocadoraA.Centro(now))]) ==
      Ok(Summary(1, 3, Some(Listing(LocadoraA.ServiceName, "2023/Porsche/911 Turbo S", 280000))))
  {
    LocadoraA.FixedReply(now);
    var r := Reply(LocadoraA.ServiceName, LocadoraA.ApiUrl, 3, LocadoraA.Advertised());
    FlattenPair(r, r);
    var all := Tag(r);
    assert all == [Listing(LocadoraA.ServiceName, "2023/Ferrari/F8 Tributo", 350000),
                   Listing(LocadoraA.ServiceName, "2024/McLaren/720S", 320000),
                   Listing(LocadoraA.ServiceName, "2023/Porsche/911 Turbo S", 280000)];
    FirstMinimumUnique(all, 2);
  }

  /** Company B alone: four cars, the cheapest the BMW M4 at 1800.00. */
  lemma AeroportoCheapest(now: RentalService.Stamp)
    ensures Summarize([RentalService.QtyReply(RentalService.LocadoraB(now))]) ==
      Ok(Summary(1, 4, Some(Listing("Locadora B - Aeroporto", "2024/BMW/M4 Competition", 180000))))
  {
    var b := RentalService.LocadoraB(now);
    RentalService.FixedInventoryReply(b.serviceName, b.apiUrl, now);
    var r := RentalService.QtyReply(b);
    FlattenPair(r, r);
    var all := Tag(r);
    assert all == AeroportoListings();
    FirstMinimumUnique(all, 3);
  }

  /** B's four cars as `all_cars` entries. */
  function AeroportoListings(): seq<Listing> {
    [ Listing("Locadora B - Aeroporto", "2024/Aston Martin/DB11", 380000),
      Listing("Locadora B - Aeroporto", "2022/Nissan/GT-R", 220000),
      Listing("Locadora B - Aeroporto", "2023/Audi/R8 V10", 330000),
      Listing("Locadora B - Aeroporto", "2024/BMW/M4 Competition", 180000) ]
  }

  /** The deployed round (`num_responses=2`): both companies answer, A first;
      both replies are kept in arrival order, seven cars in total, and the
      cheapest is B's BMW M4. */
  lemma DeployedRound(nowA: RentalService.Stamp, nowB: RentalService.Stamp)
    ensures var a := RentalService.QtyReply(LocadoraA.Centro(nowA));
            var b := RentalService.QtyReply(RentalService.LocadoraB(nowB));
            Collected(2, [Got(a), Got(b)]) == [a, b] &&
            Summarize([a, b]) ==
              Ok(Summary(2, 7, Some(Listing("Locadora B - Aeroporto", "2024/BMW/M4 Competition", 180000))))
  {
    var a := RentalService.QtyReply(LocadoraA.Centro(nowA));
    var b := RentalService.QtyReply(RentalService.LocadoraB(nowB));
    LocadoraA.FixedReply(nowA);
    RentalService.FixedInventoryReply("Locadora B - Aeroporto", "http://api.locadora-b.com.br/rental", nowB);
    assert [Got(a), Got(b)][1..] == [Got(b)] && [Got(b)][1..] == [];
    FlattenPair(a, b);
    assert Tag(b) == AeroportoListings();
    var all := Tag(a) + Tag(b);
    assert |all| == 7 && all[6] == AeroportoListings()[3];
    forall j | 0 <= j < 6 ensures all[j].price > all[6].price {
      if j < 3 {
        assert all[j] == ListingOf(a, j);
      } else {
        assert all[j] == AeroportoListings()[j - 3];
      }
    }
    FirstMinimumUnique(all, 6);
  }

  /** Equal prices: the first cheapest car in reply-then-list order wins, so
      of two cars at 80 in the second reply the first is reported. */
  lemma TieGoesToEarliest()
    ensures Summarize([Reply("A", "", 1, [Offer("X", 100)]),
                       Reply("B", "", 2, [Offer("Y", 80), Offer("Z", 80)])]) ==
      Ok(Summary(2, 3, Some(Listing("B", "Y", 80))))
  {
    var a := Reply("A", "", 1, [Offer("X", 100)]);
    var b := Reply("B", "", 2, [Offer("Y", 80), Offer("Z", 80)]);
    FlattenPair(a, b);
    var all := Tag(a) + Tag(b);
    assert all == [Listing("A", "X", 100), Listing("B", "Y", 80), Listing("B", "Z", 80)];
    FirstMinimumUnique(all, 1);
  }
}
