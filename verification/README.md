# Car-rental aggregator: verified model of the query path

This project models the query path of a small car-rental aggregator. An
aggregator (`RentalAggregator`) publishes the command `"QTY"` to every rental
company. It then collects up to `num_responses` replies on its reply socket
and acknowledges each one with `"ACK"`. Finally it prints a consolidated
summary: how many companies answered, how many cars they offer in total, and
the cheapest car. Each rental company (`RentalService` in
`rental_service2.py`, `Main` in `rental_service.py`) answers `"QTY"` with the
cars of its fixed inventory that are not rented. It then waits for one
acknowledgement.

Modules:

- `Messages` (messages.dfy): the reply record `{service_name, api_url, count, cars}`, an offered car `{nome, valor}`, the tokens `"QTY"` and `"ACK"`, and `Consistent` (count equals the length of the car list).
- `RentalService` (rental_service.dfy): a company as a value (name, URL, inventory). It has `AvailableCars`, `AvailableCount`, the reply `QtyReply`, and the socket actions of `HandleQty` and `Run`, recorded as a trace of sends and acknowledgement waits. It also holds the fixed inventory built by `RentalService.__init__`.
- `LocadoraA` (locadora_a.dfy): `rental_service.py`'s `Main`. Its query logic is the same as `rental_service2.py`'s: `get_available_cars`, `get_available_count` and `handle_qty_command` (rental_service.py:60-93) match rental_service2.py:71-104 apart from one type annotation, and the `"QTY"` dispatch in `run` (rental_service.py:113-116) matches rental_service2.py:115-118. The two `run` methods differ only in socket set-up (a `with` block here, `__init__` there) and interrupt handling (a `try`/`except KeyboardInterrupt`/`finally` there, none here), both left out. The model defines the shared logic once, in `RentalService`, and `Main` becomes `RentalService.Service` applied to its fixed name, URL and inventory. Every general property of `RentalService` therefore holds for it too. The lemmas here state what its fixed inventory yields.
- `Aggregator` (aggregator.dfy): the collect loop `RequestAvailability` and the summary. The reply socket is abstracted as the sequence of outcomes its receives yield: `Got(reply)`, `Timeout` or `Failure`. Once that sequence runs out, every further receive times out. The sockets' side effects come back as a log of events. The summary is the method `DisplaySummary`, with its nested loops. It is proved equal to the function `Summarize`, which uses `TotalCars`, `Flatten` and the first-minimum `MinIndex`.
- `Scenarios` (scenarios.dfy): both sides together. It proves that replies built by providers never make the summary raise, and computes the summaries of the two deployed companies and of a full round.

Prices are whole centavos. The code only compares and copies them.

The aggregator does not check `count == len(cars)`, and it does not skip a malformed reply while still acknowledging it. It appends and acknowledges every reply it receives intact. A reply that makes the loop raise is neither appended nor acknowledged, and it ends the loop.

Because the counts are not checked, `min` raises when the total count is positive and every reply's car list is empty. `Summarize` returns `Err(EmptyMin)` in exactly that case. `Scenarios.ProviderRoundNeverRaises` proves that this cannot happen when every reply was built by a provider.

## Model

| member | source | states |
|---|---|---|
| `RentalService.AvailableCars` | rental_service2.py:71-76 | `get_available_cars`: the list is never longer than the inventory; that it is exactly the filtered, projected inventory is `RentalService.AvailableCarsFilter` |
| `RentalService.AvailableCount` | rental_service2.py:78-80 | `get_available_count`: the count is at most the inventory size; that it equals the list's length is `RentalService.CountMatchesList` |
| `RentalService.AvailableCarsFilter` | rental_service2.py:71-76 | `get_available_cars` returns exactly the inventory cars whose `alugado` is `None`: position k of the result is the `{nome, valor}` projection of an available car, the positions rise in inventory order, and every available car appears |
| `RentalService.CountMatchesList` | rental_service2.py:78-80 | `get_available_count` equals the length of `get_available_cars()` (same predicate) |
| `RentalService.QtyReply` | rental_service2.py:84-97 | the reply carries the service's own name and URL and the available cars, and its `count` equals the length of its car list |
| `RentalService.HandleQty` | rental_service2.py:99-104 | exactly one send of the reply, then exactly one acknowledgement receive, in request-socket lockstep |
| `RentalService.Run` | rental_service2.py:110-118 | a reply is sent (followed by an acknowledgement wait) exactly when the command is `"QTY"`; any other command leaves the socket untouched |
| `RentalService.FixedInventoryReply` | rental_service2.py:17-53 | with the fixed inventory exactly one car (the Corvette) is rented, so the reply lists the other four in order with count 4 |
| `LocadoraA.FixedReply` | rental_service.py:19-52 | with the fixed inventory exactly one car (the Lamborghini) is rented, so the reply carries "Locadora A - Centro", its URL, count 3 and the Ferrari, McLaren and Porsche in order |
| `LocadoraA.RunAnswersOnlyQuery` | rental_service.py:109-116 | `"QTY"` makes the company send exactly that reply and wait for an acknowledgement; any other command sends nothing |
| `Aggregator.CollectedCharacterized` | aggregator.py:55-84 | the replies a round keeps are exactly the sequence that has at most `num_responses` entries, equals the first receive outcomes in arrival order, and, when shorter than `num_responses`, is followed by a timeout or failure |
| `Aggregator.HandshakePairing` | aggregator.py:73-77 | in the handshake log the k-th collected reply's receive is immediately followed by one `"ACK"` send, for every k, and nothing else |
| `Aggregator.HandshakeCounts` | aggregator.py:73-77 | the handshake log holds as many `"ACK"` sends and as many receives as collected replies |
| `Aggregator.RequestAvailability` | aggregator.py:36-87 | one `"QTY"` publish; at most `num_responses` replies kept, in arrival order; each kept reply received then acknowledged once; a timeout or failure is the last receive and ends the loop with the earlier replies kept; the summary is computed on what was collected |
| `Aggregator.MinIndex` | aggregator.py:118 | `min(all_cars, key=valor)` picks an entry priced at most every entry, and every entry before it is strictly dearer (first minimum) |
| `Aggregator.FirstMinimumUnique` | aggregator.py:118 | the first-minimum property determines which entry `min` returns |
| `Aggregator.Summarize` | aggregator.py:95-118 | the number of companies is the list length and the total is the sum of `count`s; a cheapest car is reported exactly when the total is positive; `min` raises exactly when the total is positive and every car list is empty |
| `Aggregator.FlattenEmpty` | aggregator.py:109-116 | `all_cars` is empty exactly when every reply's car list is empty |
| `Aggregator.FlattenAt` | aggregator.py:109-116 | car j of reply i appears in `all_cars`, tagged with reply i's `service_name`, at the position after all cars of earlier replies plus j |
| `Aggregator.FlattenOrigin` | aggregator.py:109-116 | every entry of `all_cars` comes from some car of some reply |
| `Aggregator.FlattenPrefixGrows` | aggregator.py:110-111 | the cars of an earlier reply come before the cars of any later reply in `all_cars` |
| `Aggregator.CheapestIsFirstMinimum` | aggregator.py:109-121 | the reported cheapest car is car j of some reply i, carries that reply's `service_name`, is priced at most every collected car, and every car earlier in reply-then-list order is strictly dearer |
| `Aggregator.ConsistentNeverRaises` | aggregator.py:95-118 | when every reply's count matches its list, the total equals the number of listed cars, the summary never raises, and a cheapest car is reported exactly when some company lists a car |
| `Aggregator.DisplaySummary` | aggregator.py:89-123 | the nested loops that build `all_cars`, with the total and the `min` call, produce exactly `Summarize` |
| `Scenarios.ProviderRoundNeverRaises` | aggregator.py:101-118 | a round in which every arriving reply was built by a provider's `handle_qty_command` never makes `min` raise, and its total equals the number of cars listed |
| `Scenarios.CentroCheapest` | rental_service.py:23-52 | company A alone: one company, 3 cars, cheapest the Porsche 911 Turbo S at 2800.00 |
| `Scenarios.AeroportoCheapest` | rental_service2.py:17-53 | company B alone: one company, 4 cars, cheapest the BMW M4 Competition at 1800.00 |
| `Scenarios.DeployedRound` | aggregator.py:125-129 | with `num_responses=2` and both companies answering (A first), both replies are kept in that order, the total is 7, and the cheapest is B's BMW M4 at 1800.00 |
| `Scenarios.TieGoesToEarliest` | aggregator.py:118 | of two cars at the same lowest price, the one earlier in reply-then-list order is reported |

## Left out

- The ZeroMQ transport is not modelled: context creation, socket creation, `bind`/`connect`, the ports, `setsockopt` and the pickling done by `send_pyobj`/`recv_pyobj`. The reply socket becomes a sequence of receive outcomes. Sends and receives become event logs.
- Wall-clock time is not modelled: `time.sleep(2)` and the 5-second receive timeout. A timeout is one of the receive outcomes.
- `datetime.now()` becomes a parameter `now`. Only whether `alugado` is set matters.
- All printing and the `:.2f` price formatting are left out.
- Floating-point prices are modelled as integer centavos. The code only compares and copies them.
- The `id` and `tempo` fields of an inventory car are left out. The query path never reads them.
- `KeyboardInterrupt` handling, `cleanup`, context termination and the Windows interrupt hook (`w32hk`, `allow_interrupt`) are left out.
- `Aggregator.RequestAvailability` does not model an exception raised by the `"ACK"` send itself. In the source that would leave the reply appended but unacknowledged and end the loop. The model assumes the send succeeds.
- `RentalService.HandleQty` does not model what the acknowledgement contains, or how long the provider blocks waiting for it. The provider never interprets the acknowledgement.
- The read-only query path has no lemma of its own. A service is an immutable value, so `self.cars` is unchanged and a second query yields the same reply by construction.
- An exception from `min` is modelled as the result `Err(EmptyMin)`. In the source it propagates out of `request_availability` and `run`, and only `cleanup` runs.
