# Verified models of the trading system's stateful kernels

Seven stateful kernels of the system, each modelled twice: as a function on values, about
which the theorems are proved, and, where the source changes fields in place, as a class
whose methods are proved equal to that function step by step (`ensures View() == ...`).
What is proved about the function therefore holds of every run of the class.

| kernel | specification | in-place model |
|---|---|---|
| simulated order book and its market maker | `Levels`, `Matching`, `Placing`, `BookTheorems`, `Maker`, `MakerRuns` | `SimOrderBook`, `MarketDataSim` |
| length-prefixed framing, one encoder and two decoders | `Framing` | `FrameDecoders` |
| subscription pipeline: API service, market-data base service, CTP front | `Subscriptions`, `MdFeed`, `Pipeline` | `SubscriptionService`, `MarketDataCtpService` |
| basket order state and its restore | `Baskets` | `BasketEngine` |
| bar generator | `Bars` | `BarService` |
| CTP trader: query pump and order maps | `QueryPump`, `OrderRefs` | `TraderCtpService` |
| simulated trader, client's active-order table | `SimTrading`, `ActiveOrders` | `TraderSimService`, `ActiveOrders` |

## How the source is represented

- Prices of the simulated book are integers, in ticks of `MIN_TICK` (0.01); `round_price` is
  then the identity. A side of the book is the sequence of its levels best price first: the
  bid set read from `rbegin()`, the offer set from `begin()`. `SetInsert` is
  `std::set::insert`, refusal included.
- Hashed instrument keys are numbers. Where the source relies on a key naming one
  instrument, the theorem says so (`Coherent`, `Sound`).
- Random draws, clock readings, return codes of foreign calls, and the availability of
  locations and writers are arguments of the operation that uses them.
- `std::map`, `std::set` and their unordered versions are Dafny maps and sets. A loop over
  one takes its elements in an arbitrary order, and the contract does not depend on it.
- Integers are unbounded except where a width shows: frame lengths and the buffer size in
  `onReadyRead` are reduced modulo 2^32, and the remainder in the bar window is that of C++.

## Where the code does not do what it says

The code is modelled as it is. Each item below names the lemma that states exactly when the
intended property holds, or exhibits a run in which it does not.

1. *Order book.* The comment at `brokers/sim/src/order_book.cpp:176-180` says that a sweep
   leaves no remainder. `MarketDataSim.SweepFillsExactly`: it is filled completely exactly
   when the book it is placed on holds one lot more than the book it was computed from did,
   up to `MAX_QTY + 1` lots. On a fresh book no sweep better than its own side is
   filled (`MakerRuns.SweepLeavesRemainder`); on the simulator's configuration the first one
   can rest 1090 of its 1100 (`MakerRuns.FirstSweep`).
2. *Order book.* `MAX_LEVEL_QTY` caps merges only. A new level may exceed it
   (`BookTheorems.CapKeptExactly`), and a merge then lowers the level, exactly when it held
   more than the cap (`BookTheorems.MergeLowersExactly`). In the simulator no level ever
   holds more than 10100 (`MarketDataSim.EveryReachableBook`), and on its own configuration
   two ticks can build one that does hold 10100 (`MakerRuns.LargestLevelReached`). An order
   that fills at once still pushes the worst level out of a full side, so quantity is
   conserved exactly when the level has room (`BookTheorems.QuantityConservedExactly`).
3. *Framing.* The sender does not bound its payloads, the receivers do: the round trip holds
   exactly for lists of payloads of at most 64 KiB (`Framing.RoundTripExactly`). The client
   cuts the size of its buffer to 32 bits. It takes all there is from a buffer exactly when
   at each frame in it the number of bytes still to come, so cut, covers the frame
   (`FrameDecoders.ClientParseExactly`), and stays in step over a connection exactly when
   that holds at every chunk (`FrameDecoders.ClientFeedExactly`), as it does for chunks of
   less than 2^32 bytes less one frame (`FrameDecoders.SmallChunksDeliver`). One chunk of
   2^32 + 3 zero bytes breaks it (`FrameDecoders.HugeChunkStalls`).
4. *Subscriptions.* The test for a first request looks at the instrument alone: an instrument
   already held from one source is never requested from another
   (`Subscriptions.RequestReachesExactly`). A session that was cleaned up exists again
   exactly when a request, or a cancel, that was still waiting named it, and holds a key
   exactly when such a request asked for it (`Subscriptions.CleanedUpReturnsExactly`);
   connect, disconnect, request is enough (`Subscriptions.ConnectDisconnectRequest`).
5. *CTP market data.* A login with a non-empty queue sends the queue only, so what was
   subscribed before the disconnect is lost (`MdFeed.ReloginLosesSubscription`), and a
   refused call is not tried again. In any run the front serves exactly the subscribed set
   whenever it is logged in exactly when each login, tick and drop meets a test on the state
   it finds (`MdFeed.FrontInStepExactly`). Deferring a subscription stays invisible exactly
   when every drop finds its instrument deferred under no other key, and nothing else under
   its key that is not held otherwise too (`MdFeed.DeferralHiddenExactly`). Two exchanges
   that list one code break it (`MdFeed.SharedCodeShowsDeferral`).
6. *Baskets.* A restore is independent of the listing exactly when no two orders tie for the
   last place of an instrument (`Baskets.ConfluentExactly`). The live engine drops an order
   whose basket it does not know yet, and a restore counts it: the two agree exactly when
   every such order was updated again later (`Baskets.EngineRestoreExactly`,
   `Baskets.EarlyOrderShows`).
7. *Bars.* A quote exactly on the end of a window is counted in the bar it closes and in the
   bar it opens (`Bars.BoundaryCountedTwiceExactly`). The branch that would open an empty bar
   is unreachable (`Bars.RollOverOpens`).
8. *Query pump.* `brokers/ctp/src/trader_ctp.h:185-186` says that queries never overlap. When
   every end callback answers an outstanding query, that holds exactly when no tick that
   gives a query up submits another and none is submitted while one that was given up is
   unanswered (`QueryPump.NeverOverlapsExactly`); so it holds while answers are prompt
   (`QueryPump.PromptNeverOverlaps`) and fails at a timeout with another query queued
   (`QueryPump.TimeoutOverlaps`).
9. *CTP order refs.* Recovery does not advance the ref counter. The two maps are inverses at
   every moment of a run, and every mapped order resolves to itself, exactly when no order is
   sent under a ref mapped at that moment (`OrderRefs.MutualExactly`,
   `OrderRefs.LiveOrderResolves`). A restart can break it: trades are resolved by ref
   whatever session they come from, so those of a recovered order are booked to a new one
   (`OrderRefs.RestartCrossesOrders`).
10. *Simulated trader.* An order refused for its missing block reports a traded volume
    without a trade in the modes that trade at once; that is the only way an order inserted
    once can fail to balance (`SimTrading.OrderConservedExactly`). A
    cancel can replace a status that was already final
    (`SimTrading.CancelOverwritesFinalExactly`).
11. *Client.* The client and the rest of the system disagree on which orders are live: on two
    final statuses when volume is left, and on every status that is not final when none is
    (`ActiveOrders.AgreesWithFinalExactly`).

## Model

| member | source | states |
|---|---|---|
| Matching.MatchConserves | brokers/sim/src/order_book.cpp:98-168 | On any book at all, sorted or not, the bid total and the offer total each fall by exactly the sum of the trade quantities |
| Matching.MatchSideOnlyTags | brokers/sim/src/order_book.cpp:101-165 | The buy copy and the sell copy of the loop leave the same book and make the same trades up to the aggressor tag |
| Matching.MatchUncrosses | brokers/sim/src/order_book.cpp:98-168 | After matching, no best bid is at or above the best offer |
| Matching.MatchTakesBestFirst | brokers/sim/src/order_book.cpp:98-168 | On sorted sides of positive levels, both sides end as themselves with the traded quantity removed best price first |
| Matching.ClearingVolume | brokers/sim/src/order_book.cpp:98-168 | The greedy loop is optimal: it trades the greatest quantity any single price could clear, and a price that clears exactly that much exists |
| Levels.RemoveShape | brokers/sim/src/order_book.cpp:112-128 | Removing n units best price first erases a prefix of levels, cuts the next one down and leaves the rest; what is erased and cut adds up to n |
| Placing.FillAll | brokers/sim/src/order_book.cpp:98-200 | An aggressor on top of an uncrossed book is filled level by level: its leftover stays on its side, the opposite side loses the traded quantity best first, the trades are the slices removed |
| BookTheorems.OrderTradesWhatItReaches | brokers/sim/src/order_book.cpp:170-225 | From any book satisfying the invariant, a positive order trades exactly min(quantity, opposite aggregate at its limit taken before it); it states the trades, both sides after it, the last price and the invariant; buy prices strictly increase up to the limit, sell prices all equal the limit |
| BookTheorems.OrderRests | brokers/sim/src/order_book.cpp:181-200 | An order that reaches nothing makes no trade, leaves the opposite side and last price, and is inserted or merged with eviction, keeping the invariant |
| BookTheorems.OrderCrosses | brokers/sim/src/order_book.cpp:181-200 | An order that reaches something becomes the best level of its side (evicting the worst level if it was full) and is filled against the opposite side |
| BookTheorems.LastPriceExactly | brokers/sim/src/order_book.cpp:109-142 | An order that trades nothing leaves the last price; otherwise it becomes the worst price traded: the limit for a sell, and for a buy the price of the offer whose cheaper offers hold less than the quantity traded and which with them holds at least that |
| BookTheorems.RestsByPrice | brokers/sim/src/order_book.cpp:181-198 | Price by price, what a resting order does: its own level gains its quantity up to the cap and one order, or starts with both; every other level stays, save the worst of a full side, which goes exactly when the new level is better |
| BookTheorems.FillsShape | brokers/sim/src/order_book.cpp:106-110 | The fills add up to the traded quantity, each is positive and within the limit, at strictly increasing offer prices for a buy and at the limit itself for a sell |
| BookTheorems.QuantityConservedExactly | brokers/sim/src/order_book.cpp:183-200 | Resting quantity after plus twice the trades never exceeds that before plus the order, with equality exactly when the merge stays within the cap or a new level has room |
| BookTheorems.CapKeptExactly | brokers/sim/src/order_book.cpp:181-200 | For any cap of at least MAX_LEVEL_QTY, a book within it stays within it exactly when the unfilled part is within it, or merges, or is evicted at once |
| BookTheorems.MergeLowersExactly | brokers/sim/src/order_book.cpp:184-190 | A merge changes its own level alone; it lowers it exactly when it held more than MAX_LEVEL_QTY, and adds the whole order exactly when the sum is within it |
| BookTheorems.RunKeepsInv | brokers/sim/src/order_book.cpp:98-201 | Every run of positive orders keeps prices unique and sorted, at most MAX_DEPTH levels a side, quantities positive, best bid below best offer, and every level within the larger of the cap and the largest order |
| SimOrderBook.OrderBook.MatchBook | brokers/sim/src/order_book.cpp:98-168 | The two loops over the level sets terminate on any sorted sides and compute the match, its trades and the last price |
| SimOrderBook.OrderBook.MergeLevel | brokers/sim/src/order_book.cpp:184-190 | Erasing the level found and reinserting the capped sum replaces that level where it stood and no other |
| SimOrderBook.OrderBook.AddLevel | brokers/sim/src/order_book.cpp:181-198 | Insert, merge on refusal and eviction yield the joined side cut to MAX_DEPTH |
| SimOrderBook.OrderBook.PlaceOrder | brokers/sim/src/order_book.cpp:170-201 | An order for another security is refused and changes nothing; any other leaves the specified book and trades; on an invariant book a positive order trades min(quantity, reachable) and keeps the invariant |
| SimOrderBook.OrderBook.AggregateBidQty | brokers/sim/src/order_book.cpp:203-213 | The early-exit sum is the whole bid quantity at the price or better, which is what a sell at that price can reach |
| SimOrderBook.OrderBook.AggregateOfferQty | brokers/sim/src/order_book.cpp:215-225 | The early-exit sum is the whole offer quantity at the price or better, which is what a buy at that price can reach |
| Maker.MidBounded | brokers/sim/src/order_book.cpp:263-279 | For any draws and any number of samples the mid stays within bound - 1 + 10 * variation ticks of the base, although the direction is chosen anew only every variation samples |
| Maker.MidBoundReached | brokers/sim/src/order_book.cpp:265-279 | The bound cannot be improved at either end: for every configuration with at least as many samples as the variation, some draws reach it exactly, 10 ticks a sample |
| Maker.WalkMoves | brokers/sim/src/order_book.cpp:268-279 | Each sample moves the mid by its draw in the direction in force, which was chosen at the last multiple of the variation: back towards the base at a bound or beyond, by that sample's coin otherwise |
| Maker.SampleSides | brokers/sim/src/order_book.cpp:281-305 | A falling sample sweeps with a sell, a rising one with a buy; its buy is one tick under its mid and its sell one tick over, and so do all its buys lie below the mid and its sells above |
| Maker.SamplesAroundMid | brokers/sim/src/order_book.cpp:255-311 | In a whole generation every buy lies below the mid handed out with it and every sell above |
| Maker.FutureKeepsCap | brokers/sim/src/market_data_sim.cpp:91-99 | Any number of ticks of a future, dealt in single lots, keeps every level within MAX_LEVEL_QTY |
| Maker.PadsApart | brokers/sim/src/order_book.cpp:227-253 | Pads and existing levels make MAX_DEPTH; the first pad lies one tick off the price it starts from, the others exactly two ticks further out each, with the sizes drawn; no two share a price |
| Maker.SampleQuantities | brokers/sim/src/order_book.cpp:281-305 | Every order generated against an invariant book has a quantity from 1 to MAX_QTY + 1 and the book's security |
| Maker.SamplesBounded | brokers/sim/src/order_book.cpp:255-311 | Over a whole generation, every quantity is from 1 to MAX_QTY + 1 and every published mid respects the bound |
| Maker.PadBook | brokers/sim/src/order_book.cpp:227-253 | The loop yields one pad for each missing level, none when the side is deep enough |
| Maker.GenOrders | brokers/sim/src/order_book.cpp:255-311 | The loop yields, sample by sample, the orders and mids of the specified walk, all computed against the unchanged book |
| Maker.UpdateKeepsBounds | brokers/sim/src/market_data_sim.cpp:85-108 | One timer tick keeps the invariant and keeps every level at or under 10100 |
| Maker.UpdatesKeepBounds | brokers/sim/src/market_data_sim.cpp:85-108 | Any number of timer ticks, with any draws, keeps the invariant and the level bound |
| MarketDataSim.QuoteSound | brokers/sim/src/market_data_sim.cpp:44-83 | Each published price is one of the book's, strictly worse than the one before, and the volumes published up to it are all that the book holds at that price or better; zeros behind; bid below ask; the last price is the mid, halves rounded away from zero, or zero on a one-sided book |
| MarketDataSim.EveryReachableBook | brokers/sim/src/market_data_sim.cpp:26-108 | In every book reachable from the initial ladder, whatever the draws, the invariant holds, every level holds from 1 to 10100, or 2000 for a future, and the published quote is sound |
| MarketDataSim.SweepFillsExactly | brokers/sim/src/order_book.cpp:285-300 | The maker's sweep, computed on one book and placed on another, fills completely exactly when the second holds min(aggregate on the first, MAX_QTY) + 1 lots within its limit; on the same book, exactly when it holds MAX_QTY + 1 lots |
| MakerRuns.UpdateIsSamples | brokers/sim/src/market_data_sim.cpp:85-108 | A tick places its samples one after the other, all computed on the book it found, in lots of 100 units, or of one for a future |
| MakerRuns.WholeSample | brokers/sim/src/order_book.cpp:281-305 | A rising or falling sample, better than its own side, trades the smaller of its sweep and what it reaches; exactly the rest of the sweep becomes the best of its side, at one tick off the mid, that side is trimmed to depth, and without pads the other side is what was left and the one-lot order across the mid |
| MakerRuns.SweepLeavesRemainder | brokers/sim/src/market_data_sim.cpp:85-108 | On the initial ladder, with k levels of one unit in reach, a rising or falling sweep better than its own side is for k + 1 lots, trades k units and rests the difference as the best of its side |
| MakerRuns.FirstSweep | brokers/sim/src/market_data_sim.cpp:11-18 | On the simulator's own configuration, its lowest start and longest step sell at 1008 ticks under the base, trade 10 of 1100 and rest 1090, and for a future 10 of 11 and 1 |
| MakerRuns.LargestLevelReached | brokers/sim/src/market_data_sim.cpp:11-108 | The bound of 10100 is attained on the simulator's own configuration, by two ticks from the initial ladder |
| MarketDataSim.QuoteFromOrderBook | brokers/sim/src/market_data_sim.cpp:44-83 | The loops over the quote arrays publish the ten best levels of each side, zeros behind, and the rounded mid or zero |
| MarketDataSim.InitOrderBook | brokers/sim/src/market_data_sim.cpp:26-42 | Forty alternating orders build a ladder of MAX_DEPTH levels of one unit, 100 ticks apart, on each side, without any trade |
| MarketDataSim.UpdateOrderBook | brokers/sim/src/market_data_sim.cpp:85-108 | One tick leaves the book of the specified run, orders scaled by 100 unless a future, and publishes that book's quote |
| Framing.HeaderRoundTrip | client/src/ApiClient.cpp:103-111 | The length read from four big-endian bytes is the length written |
| Framing.LengthRoundTrip | apps/api.cpp:148-157 | The four bytes written for a length read are the bytes read |
| Framing.HeaderOrdered | apps/api.cpp:148-157 | The bytes are big-endian: lengths compare as their headers do from the first byte on |
| Framing.ParseReads | client/src/ApiClient.cpp:121-140 | The parse of any stream is a reading of it: small payloads whose encodings, followed by a rest that starts no acceptable frame, are the stream |
| Framing.ReadingUnique | client/src/ApiClient.cpp:121-140 | A stream has only one such reading, so the code is prefix free |
| Framing.ParseAppend | client/src/ApiClient.cpp:121-140 | Parsing a stream in two pieces, the rest of the first in front of the second, gives the parse of the whole |
| Framing.ParseStuck | client/src/ApiClient.cpp:127-131 | After a length over the bound no later bytes add a frame |
| Framing.RoundTripExactly | client/src/ApiClient.cpp:103-140 | A list of payloads survives encoding and parsing with nothing left over exactly when each is at most 64 KiB |
| Framing.OneFrame | client/src/ApiClient.cpp:127-131 | A frame alone is delivered when its payload has at most 64 KiB, and stops the reading when it has more |
| FrameDecoders.ChunkingInvisible | client/src/ApiClient.cpp:121-140 | Decoding chunk by chunk gives the frames of the concatenated stream, and its rest unless a length over the bound reset the connection, which empties the buffer |
| FrameDecoders.StreamingRoundTrip | client/src/ApiClient.cpp:103-140 | Small payloads encoded, followed by an unfinished tail and cut into chunks in any way, come out as they went in with exactly the tail left |
| FrameDecoders.UnfinishedShape | client/src/ApiClient.cpp:121-140 | What is left is less than four bytes or a strict prefix of one acceptable frame |
| FrameDecoders.ClientParseExactly | client/src/ApiClient.cpp:121-140 | The client takes from its buffer what a full-width reader would exactly when, at each frame, the number of bytes from there on, cut to 32 bits, covers the frame |
| FrameDecoders.ClientFeedExactly | client/src/ApiClient.cpp:121-140 | Over chunks of any sizes the client has at every moment what it should have exactly when that holds of the buffer each chunk makes, or the connection was reset before |
| FrameDecoders.HugeChunkStalls | client/src/ApiClient.cpp:133 | From one chunk of 2^32 + 3 zero bytes the client delivers nothing, though it begins with an empty frame |
| FrameDecoders.SmallChunksDeliver | client/src/ApiClient.cpp:133 | Over chunks of at most 2^32 bytes less one frame the client has what it should have |
| FrameDecoders.ApiClient.ConnectToHost | client/src/ApiClient.cpp:53-58 | Gives up the current connection and empties the receive buffer; the socket is not connected until it reports so |
| FrameDecoders.ApiClient.Abort | client/src/ApiClient.cpp:60-77 | Drops the connection; the disconnect handler empties the buffer when there was one |
| FrameDecoders.ApiClient.SendRequest | client/src/ApiClient.cpp:85-119 | When connected, takes the next id and writes exactly one encoded frame, or the part of it a short write takes; otherwise returns 0 and changes nothing |
| FrameDecoders.ApiClient.OnReadyRead | client/src/ApiClient.cpp:121-140 | Processes exactly the frames the client's test finds at the front of the buffer and keeps the rest; an oversized length resets the connection and empties the buffer; under 2^32 bytes this is the parse |
| FrameDecoders.ApiClient.Receive | client/src/ApiClient.cpp:121-140 | Over a whole connection of chunks of any sizes, frames, buffer and reset are those of the client's feed: a prefix of what was sent, and all of it exactly when the client was reset or holds no complete frame |
| FrameDecoders.Connection.ReadFrame | apps/api.cpp:161-191 | Under arbitrary partial receives and timeouts, a success consumed exactly one encoded frame; a failure is a stop, a hang-up inside an incomplete frame or an oversized length; no byte is lost or reordered |
| FrameDecoders.Connection.ReceiveLoop | apps/api.cpp:408-432 | The bodies handled are a prefix of the parse of the stream, and all of it when the peer hangs up after the last byte or an oversized length ends the loop |
| Subscriptions.AgreeKept | apps/api.cpp:742-751 | With one source for each instrument, every event keeps both books of every session listing the same keys |
| Subscriptions.StepKeeps | apps/api.cpp:448-509 | One connect, request, cancel or cleanup never leaves a source without a key some session holds, and keeps sources exact when its frames can be written |
| Subscriptions.SourcesFollowSessions | apps/api.cpp:707-807 | In every run with one source for each instrument, at every moment each source's net subscriptions contain the union of the sessions' keys for it, and equal it when writers are available; both books of every session agree |
| Subscriptions.FramesWrittenExactly | apps/api.cpp:725-799 | In such runs with writers, an accepted request writes one subscribe frame exactly when its source was not subscribed, and a known cancel one unsubscribe frame exactly when no other session holds the key, needless exactly when this one did not either |
| Subscriptions.ReleasedNet | apps/api.cpp:478-509 | A cleanup, which writes one unsubscribe frame for each key to release, takes from each source exactly the keys the session held there that nobody else holds, if it is writable |
| Subscriptions.SourcesListedHold | apps/api.cpp:769-790 | In every run no session lists a source for which it holds nothing |
| Subscriptions.RequestReachesExactly | apps/api.cpp:725-737 | A request reaches its source exactly when nobody held the key from any source or the source had it already |
| Subscriptions.CleanedUpReturnsExactly | apps/api.cpp:448-509 | After a session's cleanup, with no other since, the session exists exactly when a later connect, accepted request or known cancel named it, and holds a key exactly when such a request asked for it and no later cancel took it back |
| Subscriptions.LateRequestRevives | apps/api.cpp:742-751 | A request handled after its session was cleaned up brings the session back, and its key stays needed through any events but a cancel of it or another cleanup |
| Subscriptions.ConnectDisconnectRequest | apps/api.cpp:742-751 | The run connect, disconnect, request exists: the session is gone after the second event, and after the third its key is needed and subscribed |
| SubscriptionService.ApiService.AnyHolder | apps/api.cpp:725-734 | The scan finds a holder exactly when some session outside the exception holds the key, whatever order it goes in |
| SubscriptionService.ApiService.Accept | apps/api.cpp:387-394 | Creates the session when absent, and changes nothing else |
| SubscriptionService.ApiService.HandleRequestMarketData | apps/api.cpp:707-759 | Refused without a trace unless located, writable and named; otherwise writes a frame exactly for a key nobody held, and enters the key in both books |
| SubscriptionService.ApiService.HandleCancelMarketData | apps/api.cpp:761-807 | Removes the key from both books, drops an emptied source entry, and unsubscribes exactly when no other session holds the key and the source is writable |
| SubscriptionService.ApiService.ReleaseSource | apps/api.cpp:478-509 | Writes, in any order, exactly one unsubscribe frame for each of the keys that no remaining session holds |
| SubscriptionService.ApiService.CleanupSession | apps/api.cpp:448-509 | Removes the session, and writes exactly one unsubscribe frame for each of its keys held by nobody else at each writable source, in any order of iteration |
| MdFeed.DropCleanExactly | src/wingchun/broker/marketdata.cpp:69-82 | A drop takes its instrument and nothing else from what is subscribed or deferred exactly when the instrument is deferred under no other key and nothing else is lost with its key |
| MdFeed.DeferralHiddenExactly | src/wingchun/broker/marketdata.cpp:60-82 | In any run, the subscribed set with the deferred keys is at every moment what applying each command at once would leave, exactly when every drop is clean at its moment |
| MdFeed.DeferralInvisible | src/wingchun/broker/marketdata.cpp:60-82 | So it is in every run of commands, timers, logins and disconnects in which keys and ids determine each other |
| MdFeed.SharedCodeShowsDeferral | src/wingchun/broker/marketdata.cpp:69-82 | One code on two exchanges, added under one key and dropped under the other, is not a clean drop: it stays deferred though the commands leave nothing |
| MdFeed.QueueStaysSound | brokers/ctp/src/market_data_ctp.cpp:107-181 | In every run the login queue has no repeats, lies within the subscribed set and is empty while logged in |
| MdFeed.LoggedInExactly | brokers/ctp/src/market_data_ctp.cpp:162-197 | In every run the service is logged in exactly when some login was followed by no failed login and no lost front |
| MdFeed.AwayAsksNothing | brokers/ctp/src/market_data_ctp.cpp:107-160 | While not logged in nothing is asked of the front, and a tick queues exactly the new ids in the order asked for |
| MdFeed.FrontInStepExactly | brokers/ctp/src/market_data_ctp.cpp:107-197 | In every run the front serves exactly the subscribed set whenever logged in, exactly when each accepted login finds its queue empty or complete, each refused one nothing subscribed, each refused tick nothing new, and each refused drop nothing subscribed |
| MdFeed.ReloginLosesSubscription | brokers/ctp/src/market_data_ctp.cpp:162-181 | A disconnect between two subscriptions: after the next login both are subscribed and the front serves the second alone |
| MdFeed.FrontServesExactly | brokers/ctp/src/market_data_ctp.cpp:107-197 | Whatever calls the front refuses, while logged in it serves exactly the subscribed set, less what the last login left out or a refused call lost, plus what it refused to drop; it is in step exactly when both are empty |
| MdFeed.LoginInStepExactly | brokers/ctp/src/market_data_ctp.cpp:162-181 | A login leaves the front in step with the subscribed set exactly when the queue is empty or covers it |
| MdFeed.NothingLost | brokers/ctp/src/market_data_ctp.cpp:162-181 | Nothing is lost or left behind at any logged-in moment of a run exactly under that same condition on its events |
| MarketDataCtpService.MarketDataCtp.AddInstrumentKey | src/wingchun/broker/marketdata.cpp:67 | Appends to the deferred list and changes nothing else |
| MarketDataCtpService.MarketDataCtp.Subscribe | brokers/ctp/src/market_data_ctp.cpp:107-131 | The loop inserts exactly the named, not yet subscribed ids once each, then queues them or asks the front |
| MarketDataCtpService.MarketDataCtp.TrySubscribe | src/wingchun/broker/marketdata.cpp:60-65 | Hands the whole deferred list on and empties it |
| MarketDataCtpService.MarketDataCtp.Unsubscribe | brokers/ctp/src/market_data_ctp.cpp:133-160 | The loop over any list of keys removes exactly the named ids from the subscribed set and the queue, and one call removes them from the front when logged in and accepted |
| MarketDataCtpService.MarketDataCtp.UnsubscribeKey | src/wingchun/broker/marketdata.cpp:69-82 | Removes every deferred entry of the key first, then unsubscribes |
| MarketDataCtpService.MarketDataCtp.OnLoginSuccess | brokers/ctp/src/market_data_ctp.cpp:162-181 | Asks the new session for the queue, or for the whole subscribed set when the queue is empty, and empties the queue |
| MarketDataCtpService.MarketDataCtp.OnFrontDisconnected | brokers/ctp/src/market_data_ctp.cpp:191-197 | Clears the login and keeps the subscribed set and the queue |
| Pipeline.SourceHoldsWhatSessionsHold | src/wingchun/broker/marketdata.cpp:60-82 | End to end: once a source handled the frames written to it, at whatever moments its timers and logins fell and whatever the front answered, what it has subscribed or deferred names exactly the keys some session holds for it |
| Pipeline.FrontServesWhatSessionsHold | brokers/ctp/src/market_data_ctp.cpp:107-181 | And once the timer has run, when each event kept the front in step, an instrument is served by the front exactly when some session holds it for this source |
| Baskets.IndexStaysAgreed | src/wingchun/basketorder/basketorder.cpp:17-32 | After every update of a live run, ties included, the index holds under each key the current version of an order of that key with the greatest insert time |
| Baskets.RestoreAgreesWithLive | src/wingchun/basketorder/basketorderengine.cpp:25-43 | Replaying the latest version of each order once, in any order, gives the orders, index, volumes and status the whole live run gave, when the last order of each instrument is unique |
| Baskets.EngineRestoreExactly | src/wingchun/basketorder/basketorderengine.cpp:25-90 | Over live runs with basket-creation events, a restore from the stored orders of all baskets in any order gives a basket the state of the live engine exactly when every order dropped before its basket was known was updated again later |
| Baskets.EngineRestoreAgrees | src/wingchun/basketorder/basketorderengine.cpp:25-43 | So it does for every basket known before its first order |
| Baskets.EarlyOrderShows | src/wingchun/basketorder/basketorderengine.cpp:82-85 | An order heard just before its basket is never counted live, and is among the stored orders |
| Baskets.ConfluentExactly | src/wingchun/basketorder/basketorder.cpp:17-32 | All listings of the orders give one index exactly when no two orders tie for the greatest insert time of an instrument |
| Baskets.DynamicLeftNonNegative | src/wingchun/basketorder/basketorder.cpp:34-65 | The dynamic volume is at least the total traded, so the volume left is between 0 and the volume |
| Baskets.DynamicLeftExactly | src/wingchun/basketorder/basketorder.cpp:53-65 | What a dynamic basket has left is exactly what its live orders and the last order of each instrument have left; a superseded order that ended no longer counts |
| Baskets.StatusExactly | src/wingchun/basketorder/basketorder.cpp:34-51 | Traded and left make up the volume; with a live order the status is partially filled and active exactly when something was traded, else pending; without one it is filled exactly when nothing is left, else partially filled and not active |
| Baskets.EngineStatusExactly | src/wingchun/basketorder/basketorderengine.cpp:76-90 | In every engine run, a basket that counted an order holds the latest versions counted, the index of them, and the status that fits them |
| Baskets.ZeroUntouched | src/wingchun/basketorder/basketorderengine.cpp:76-80 | In every engine run, orders that name basket 0 change nothing |
| BasketEngine.BasketOrderState.UpdateLatestOrder | src/wingchun/basketorder/basketorder.cpp:17-32 | Stores the order, and replaces the index entry unless its holder was inserted strictly later |
| BasketEngine.BasketOrderState.GetTotalVolume | src/wingchun/basketorder/basketorder.cpp:53-65 | The loop sums, whatever its order, the whole volume of last or live orders and the traded volume of superseded ended ones |
| BasketEngine.BasketOrderState.GetTotalTradedVolume | include/kungfu/wingchun/basketorder/basketorder.h:17-33 | The sum of volume less volume left over the stored orders |
| BasketEngine.BasketOrderState.IsAllOrderEnd | include/kungfu/wingchun/basketorder/basketorder.h:17-33 | True exactly when every stored order has a final status |
| BasketEngine.BasketOrderState.Update | src/wingchun/basketorder/basketorder.cpp:34-51 | Updates orders and index, then the volume by mode, the volume left and the derived status |
| BasketEngine.BasketOrderEngine.MakeBasketOrderState | src/wingchun/basketorder/basketorderengine.cpp:106-116 | Returns a known basket as it is; otherwise adds a fresh state and leaves the others alone |
| BasketEngine.BasketOrderEngine.TryUpdateBasketOrder | src/wingchun/basketorder/basketorderengine.cpp:76-90 | An order without a basket or of an unknown one changes nothing; any other updates its own basket and no other |
| BasketEngine.BasketOrderEngine.RestoreOrders | src/wingchun/basketorder/basketorderengine.cpp:25-34 | After the loop every known basket is the replay of its own orders as listed, and basket number 0 is unchanged |
| Bars.BarsAreFolds | src/wingchun/service/bar.cpp:60-109 | Every bar written with ticks is the first, last, least, greatest, count and volume difference of exactly the quotes its window admits among those handled while it was current; one without ticks admitted none |
| Bars.RollOverOpens | src/wingchun/service/bar.cpp:85-108 | After the catch-up the roll-over quote lies inside the new window, which it opens, so the other branch is unreachable; it lies on its start only when that is the end of the closed window |
| Bars.WindowsStayOrdered | src/wingchun/service/bar.cpp:65-91 | Every window starts at a multiple of the interval and is one interval long; written windows increase without overlap; each bar is opened by the quote that closed the one before |
| Bars.FirstWindowHolds | src/wingchun/service/bar.cpp:65-70 | The first window is the one the time of the first event falls in; for a negative time, whose C++ remainder is negative, the one after |
| Bars.FirstQuoteCounted | src/wingchun/service/bar.cpp:65-85 | A first quote whose data time lies in that window makes its bar, on the end of it also the next bar, and before it counts nowhere |
| Bars.BoundaryCountedTwiceExactly | src/wingchun/service/bar.cpp:71-109 | A late quote changes nothing; a quote inside is counted once; a roll-over quote is counted in the bar it opens, and in the bar it closes too exactly when it falls on the end of the window |
| Bars.VolumeNeverInvented | src/wingchun/service/bar.cpp:71-99 | With cumulative volumes, the written bars' volumes plus the current one never exceed the last seen volume less the first counted |
| BarService.BarGenerator.CountIn | src/wingchun/service/bar.cpp:71-84 | The field-by-field update counts the quote exactly when it lies in the window, both ends included |
| BarService.BarGenerator.RollOver | src/wingchun/service/bar.cpp:85-108 | The catch-up loop terminates and opens the specified bar |
| BarService.BarGenerator.OnQuote | src/wingchun/service/bar.cpp:60-110 | Keeps, for every instrument, the current bar and the written bars equal to those of its own run of quotes, whatever other instruments do in between |
| QueryPump.SubmissionsSpaced | brokers/ctp/src/trader_ctp.cpp:139-177 | In every run, between two submitted queries there is an end callback or a tick at least the timeout after the first was sent |
| QueryPump.SubmissionsSpacedByClock | brokers/ctp/src/trader_ctp.cpp:147-177 | With a monotone clock the second submission itself is at least the timeout after the first, unless an end callback came between |
| QueryPump.QueriesLeaveInOrder | brokers/ctp/src/trader_ctp.cpp:139-177 | The queries pushed are those that left, by running or by the whole-queue drop, followed by those queued, in push order |
| QueryPump.TickDoesExactly | brokers/ctp/src/trader_ctp.cpp:147-177 | What each event of a run does, without the pump's state: only a tick that finds queries pushed and not gone, and no submitted one still within its timeout and unanswered, does anything; on a ready session it runs the oldest, otherwise it drops them all |
| QueryPump.NothingRunsUnready | brokers/ctp/src/trader_ctp.cpp:162-166 | No query runs before the session is ready, and a tick that finds it not ready and waits for nothing leaves the queue empty |
| QueryPump.OneAtATime | brokers/ctp/src/trader_ctp.cpp:139-177 | While no query is submitted by a tick that gives one up or beside one given up, at most one is outstanding, and the flag says whether it is one not given up |
| QueryPump.NeverOverlapsExactly | brokers/ctp/src/trader_ctp.h:185-186 | When end callbacks answer outstanding queries, every query is submitted with no other outstanding exactly when none is submitted by a tick that gives one up, or while one given up is unanswered |
| QueryPump.PromptNeverOverlaps | brokers/ctp/src/trader_ctp.h:185-194 | While no tick finds a query past its timeout, queries never overlap, and the flag says whether one is outstanding |
| QueryPump.TimeoutOverlaps | brokers/ctp/src/trader_ctp.cpp:147-177 | A timeout with another query queued leaves two outstanding at once, and the late answer to the first then lets a third out beside the second |
| OrderRefs.DecimalInjective | brokers/ctp/src/trader_ctp.cpp:645-706 | Different counter values give different ref strings |
| OrderRefs.RefsNumberRequests | brokers/ctp/src/trader_ctp.cpp:645-742 | The counter is the number of inserts and cancels requested so far, sent or not, so request number k takes ref k |
| OrderRefs.InsertMutualExactly | brokers/ctp/src/trader_ctp.cpp:700-701 | Mapping a new order keeps the maps mutual inverses exactly when its ref was not mapped |
| OrderRefs.MutualExactly | brokers/ctp/src/trader_ctp.cpp:700-701 | Over every run of inserts, cancels, erasures and recoveries with new order ids, the maps are mutual inverses at every moment exactly when no order is sent under a ref mapped at that moment |
| OrderRefs.MapsStayMutual | brokers/ctp/src/trader_ctp.cpp:942-948 | So they are whenever no order is sent under a ref recovered before: the counter's own refs never come again |
| OrderRefs.RecoverMapsExactly | brokers/ctp/src/trader_ctp.cpp:96-113 | A recovery maps a stored order exactly when it has a ref that was not mapped and that no order listed earlier has, and to exactly what was stored |
| OrderRefs.MappedExactly | brokers/ctp/src/trader_ctp.cpp:942-948 | In every run with new ids, an order is mapped exactly when some sent insert or recovery mapped it and no erasure followed, to the ref, instrument, exchange and source of that event |
| OrderRefs.SourceFollowsOrder | brokers/ctp/src/trader_ctp.cpp:816-822 | So its notifications go to the source that sent it, or for which it was stored; those of an order not mapped are public |
| OrderRefs.UnmappedResolves | brokers/ctp/src/trader_ctp.cpp:802-869 | Order notifications of other sessions do not depend on the maps, and where the ref is not mapped an order and its trades with an exchange id get the same id |
| OrderRefs.LiveOrderResolves | brokers/ctp/src/trader_ctp.cpp:802-814 | In every run with new order ids, the ref of each mapped order resolves to it at every moment, in notifications of its own session and in trades, exactly when no order is sent under a ref mapped at that moment |
| OrderRefs.RestartCrossesOrders | brokers/ctp/src/trader_ctp.cpp:863-867 | After a recovery of ref 1 a trade with that ref is the recovered order's; after the first order sent, which takes ref 1 too, it is the new one's, though the recovered order is still mapped |
| TraderCtpService.TraderCtp.PushQuery | brokers/ctp/src/trader_ctp.cpp:139 | Appends to the queue and changes nothing else |
| TraderCtpService.TraderCtp.FinishInFlightQuery | brokers/ctp/src/trader_ctp.cpp:141-145 | Clears the flag, whichever query ended |
| TraderCtpService.TraderCtp.PumpQueryQueue | brokers/ctp/src/trader_ctp.cpp:147-177 | One tick waits, gives up a query past its timeout, drops the queue when not ready, or runs its first query, and reports which |
| TraderCtpService.TraderCtp.InsertOrder | brokers/ctp/src/trader_ctp.cpp:645-706 | A failed check changes nothing; a passed one spends a counter value and maps the order both ways exactly when the request was sent |
| TraderCtpService.TraderCtp.CancelOrder | brokers/ctp/src/trader_ctp.cpp:708-742 | Spends a counter value exactly when the order is mapped and the session ready; the maps are unchanged |
| TraderCtpService.TraderCtp.EraseOrderMapping | brokers/ctp/src/trader_ctp.cpp:942-948 | Removes both entries of a mapped order, and nothing otherwise |
| TraderCtpService.TraderCtp.OnRtnOrder | brokers/ctp/src/trader_ctp.cpp:374-384 | Resolves the notification's order and source, and erases the order exactly on a final status |
| TraderCtpService.TraderCtp.OnRtnTrade | brokers/ctp/src/trader_ctp.cpp:386-393 | Resolves a trade by its ref alone, whatever its session, else by the exchange's id or the trade's, and finds its source |
| TraderCtpService.TraderCtp.OnRecover | brokers/ctp/src/trader_ctp.cpp:96-113 | Maps the stored orders that have an unmapped ref, in the order listed, and leaves the counter |
| SimTrading.SlicesShape | brokers/sim/src/trader_sim.cpp:151-173 | Multiple mode writes the volume divided by the slice, rounded up, trades of the order at its price, all but the last full, adding up to the volume |
| SimTrading.ModeDecidesExactly | brokers/sim/src/trader_sim.cpp:29-173 | What each mode makes of a new order: refused or kept, the volume traded at once (nothing, the smallest lot, or all), the volume left, the number of trades written, and each status exactly in its mode |
| SimTrading.TradesFollowOrders | brokers/sim/src/trader_sim.cpp:53-203 | In every run and mode, each trade comes after its order, at its price, for a positive volume no more than the order's version at that moment reports traded |
| SimTrading.InsertBalancesExactly | brokers/sim/src/trader_sim.cpp:71-173 | An insert with a new id keeps trades and reported traded volume in balance exactly unless only its block is missing in a mode that trades at once |
| SimTrading.CancelBalances | brokers/sim/src/trader_sim.cpp:178-203 | A cancel, of any id, keeps the balance of every order |
| SimTrading.OrderConservedExactly | brokers/sim/src/trader_sim.cpp:53-203 | In every run and mode that inserts an order at most once, whatever happens to others, the trades written for it add up to the volume less the volume left of its latest version exactly unless it failed only for its block in a mode that trades at once |
| SimTrading.VolumeConserved | brokers/sim/src/trader_sim.cpp:53-203 | In every run and mode without repeated ids, through any cancels, every kept order balances, and all orders written do exactly when none was unbacked |
| SimTrading.SecondCancelSilent | brokers/sim/src/trader_sim.cpp:178-203 | A later cancel of a cancelled order changes nothing, whatever happened to other orders in between |
| SimTrading.CancelOverwritesFinalExactly | brokers/sim/src/trader_sim.cpp:178-203 | The cancel of a kept order writes over a status that was already final exactly in the modes that end an order with volume left, and to which status |
| TraderSimService.TraderSim.InsertOrder | brokers/sim/src/trader_sim.cpp:53-176 | A refused order is written as an error and not kept; any other is written with its mode's status, kept, and followed by its trades |
| TraderSimService.TraderSim.WriteTrades | brokers/sim/src/trader_sim.cpp:133-173 | The slicing loop writes exactly the specified trades |
| TraderSimService.TraderSim.CancelOrder | brokers/sim/src/trader_sim.cpp:178-203 | Forgets the order, and writes its cancellation exactly when volume was left |
| ActiveOrders.NextIndexed | client/src/LeftBottomTabs.cpp:196-238 | Inserting, updating or removing with renumbering keeps the map a bijection from ids onto row numbers that agrees with the rows |
| ActiveOrders.TableShowsActiveOrders | client/src/LeftBottomTabs.cpp:196-238 | After any pushes the ids present are exactly those whose latest push is active, and each one's row shows that push |
| ActiveOrders.RowsInOrder | client/src/LeftBottomTabs.cpp:196-238 | After any pushes the rows stand in the order in which their orders became active, whatever was removed from between them |
| ActiveOrders.AgreesWithFinalExactly | client/src/LeftBottomTabs.cpp:120-125 | For every order the client's test and the system's final-status test agree exactly when, with volume left, the status is neither PartialFilledNotActive nor Lost, and with none left the status is final |
| ActiveOrders.LeftBottomTabs.Renumber | client/src/LeftBottomTabs.cpp:226-238 | The loop lowers exactly the row numbers above the removed row, whatever order it goes in |
| ActiveOrders.LeftBottomTabs.OnOrderReceived | client/src/LeftBottomTabs.cpp:196-238 | The in-place row and map updates are the specified step and keep the bijection |

## Left out

- Sockets, threads, locks, the journal, JSON and Qt drawing: foreign calls. The event loops are sequences of steps, and a JSON body that does not parse counts as a body received.
- Partial writes in `write_frame`.
- MarketDataCtpService.MarketDataCtp.Unsubscribe: `unsubscribe` passes pointers into strings local to its loop, which are gone when the call is made (`brokers/ctp/src/market_data_ctp.cpp:135-154`); the model takes the ids to arrive as they were.
- Floating point: the book's prices are ticks, so rounding noise between equal prices is not modelled; 64-bit overflow of quantities, volumes and request ids is not either.
- The random generators and seeds: draws are any values in the stated ranges.
- The loop over all books in `update_orderbooks`, and the parsing of the security id; each book is updated on its own.
- `OrderBook::mid`, `spread` and `compact`: not on any path modelled.
- BookTheorems.OrderTradesWhatItReaches: quantities are positive; for others MatchConserves and PlaceOrder state what holds.
- Maker.MidBounded: the bound and the variation are at least 1, outside which the distributions and the remainder are undefined.
- Pipeline.SourceHoldsWhatSessionsHold: one source for each instrument and writers available, the condition RequestReachesExactly shows to be needed.
- Renewals of client subscriptions, restarts of market-data processes, strategies and manual orders of a session.
- Basket instruments, and the frame `update_basket_order` writes back.
- `BarGenerator::on_start` configuration parsing; the interval is positive.
- Position accumulation, the settlement flow, enum conversions and account queries of the CTP trader.
- Block messages' contents, trade ids and times of the simulated trader.
- The order history table and the other tables of the client.
- Accounting, bookkeeping and trading-day calendars.
