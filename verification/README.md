# Verified model of a network monitor's tracking core

RustNet watches the packets of a host, recognises protocols in them, and keeps a table of
connections with states, counters, rates and protocol facts. This project models the parts of it
that carry state or arithmetic worth proving, and proves what they promise over whole runs.

| file | what it models |
|---|---|
| `Reassembler.dfy` | the buffer that puts QUIC CRYPTO data back in order, and the merge of two such buffers |
| `QuicMerge.dfy` | merging what one more packet shows of a QUIC connection: state, close, TLS facts, CRYPTO data |
| `TcpObserver.dfy` | the TCP state seen by a passive observer, and its retransmission counters |
| `Rates.dfy` | the sliding window behind the bandwidth columns, and the smoothing of what is shown |
| `Connections.dfy`, `LiveConnections.dfy` | a connection from creation through merges and refreshes to its timeout; the first on values, the second as the object that is updated in place |
| `ConnectionTable.dfy` | the shared table as a machine whose atomic steps any number of threads interleave |
| `SharedTables.dfy` | the tables as the object the threads mutate: packet entry, refresh sweep, cleanup pass |
| `Archive.dfy`, `Eviction.dfy` | the archive of closed connections over any sequence of cleanup passes, its string keys, and dropping the oldest |
| `GeoIp.dfy` | location lookups behind a cache with a time to live and a size limit |
| `TlsHello.dfy`, `TlsRoundTrip.dfy`, `TlsReply.dfy`, `TlsTrailing.dfy` | the TLS ClientHello and ServerHello parsers that tolerate truncation; the encoders, what is read of every prefix, and what is not read behind |
| `Mqtt.dfy`, `Ipv6.dfy`, `Dns.dfy`, `Dhcp.dfy` | the other wire-format walkers, each beside its encoder |
| `Utf8.dfy` | what counts as text, against an encoder |
| `Bytes.dfy`, `Clock.dfy`, `Sums.dfy`, `TlsTypes.dfy` | bytes and UTF-8, one clock, sums over maps, TLS facts |

Code that computes is modelled by functions; code that updates fields or variables step by step by
classes and loops, each method proved equal to such a function. The theorems are about the functions,
over every sequence of packets, ticks, steps or deliveries.

Some results are worth knowing before the code, because the code does not do quite what its
comments or the standards suggest:

- While a server name is missing or partial, re-extraction replaces the whole TLS record, so an ALPN
  list or version already known can be lost. `QuicMerge.SettledFactsAreSafeIff` says exactly when not,
  over every extractor that answers from CRYPTO data or from its cache and keeps the cache as the
  code does; what the code's own extractor makes of given bytes is not part of this model.
- The inbound ACK that completes a handshake opened by the other side is not recognised
  (`TcpObserver.PassiveOpenIsMissed`, and the exact rule in `TcpObserver.PassiveOpenIff`), and a close
  in which the other side's FIN carries the ACK of ours stays in CLOSING
  (`TcpObserver.CombinedFinIsMissed`, and the exact rule in `TcpObserver.ActiveCloseIff`).
- The refresh thread may skip a rate that should show when a packet is merged 20 seconds or more after
  its clock reading: `Connections.LazyRefreshIsFaithful` below that, `Connections.LagBoundIsTight` at it.
- A stopped rate takes "about three refreshes" to vanish only when it is small;
  `Rates.StoppedRateVanishes` gives the exact decay.
- The version bytes of a ServerHello replace the record layer's even when they are not known, where a
  ClientHello falls back on it: `TlsReply.NegotiatedVersion`, `TlsRoundTrip.WholeRecord`.
- The ten minutes that an established connection active within the last one is said to have
  (ARCHITECTURE.md, "Timeout Strategy") never apply: it goes after five, since by then it was not active.
  `Connections.CleanupKeepsTheRules` gives every rule in seconds.
- Sequence numbers are compared as they stand: a segment sent again after one that wrapped is not counted
  (`TcpObserver.RepeatCountsIff`), and after a gap in what was seen nothing is, until a segment starts
  where the gap does (`TcpObserver.GapStopsCounting`).
- A DNS question cut inside a label gives that label's length and first byte as its query type
  (`Dns.QuestionCut`).
- Processors check the limit before they enter, so the table can exceed it by one less than their
  number, and does: `ConnectionTable.TableIsBounded`, `ConnectionTable.BoundIsReached`.

One operation has a precondition that its callers meet and its signature does not show: `add_fragment`
must not be given an empty fragment at the offset of a stored one, which would replace the stored bytes.
`Reassembler.AddKeepsInvariantIff` shows this is the one way to break the buffer, and
`Reassembler.EmptyFragmentReplaces` that it does. The frame parser adds non-empty data only
(`src/network/dpi/quic.rs:863`), and merging adds what is stored (`src/network/merge.rs:597`).

## Model

| member | source | states |
|---|---|---|
| Reassembler.AddKeepsInvariantIff | src/network/types.rs:963-1015 | adding keeps order, disjointness, exact size and least uncovered offset if and only if it is not an empty fragment at the offset of a stored non-empty one |
| Reassembler.EmptyFragmentReplaces | src/network/types.rs:963-997 | a stored byte and an empty fragment at its offset: the byte is gone and the invariant with it |
| Reassembler.AddMeaning | src/network/types.rs:963-997 | the first write wins: a fragment is refused exactly when it does not fit, ignored exactly when one of its positions is taken, and otherwise is exactly what is new |
| Reassembler.AdvanceIsLeastUncovered | src/network/types.rs:1000-1015 | walking on from the old offset reaches the least position not covered |
| Reassembler.ContiguousMeaning | src/network/types.rs:1018-1045 | the data is None exactly when position 0 is missing, else every held byte up to the first missing one |
| Reassembler.AnyDeliveryIsSound | src/network/types.rs:963-1045 | pieces of one stream in any order, repeated, overlapping or refused: the invariant holds and the data is the stream's own prefix |
| Reassembler.OrderIndependence | src/network/types.rs:963-1045 | every chunk of a cut delivered at least once in any order yields exactly the first n bytes |
| Reassembler.UnionIsHeld | src/network/types.rs:963-997 | compatible deliveries that fit are all kept, and the size grows by exactly the new bytes |
| Reassembler.MergeKeeps | src/network/merge.rs:586-610 | folding another buffer in loses and changes no byte and never shortens the prefix |
| Reassembler.MergeIsUnion | src/network/merge.rs:586-610 | two buffers of one cut merge to exactly their union, with a prefix at least as long as either's |
| Reassembler.ChunksMerge | src/network/merge.rs:586-610 | two buffers of chunks of the first n bytes, with room for n, merge without losing a chunk |
| Reassembler.CryptoFrameReassembler.constructor | src/network/types.rs:950-960 | a new buffer is empty and satisfies the invariant |
| Reassembler.CryptoFrameReassembler.AddFragment | src/network/types.rs:963-997 | the in-place operation is `Add`, whose effect is AddMeaning, with its error result |
| Reassembler.CryptoFrameReassembler.UpdateContiguousOffset | src/network/types.rs:1000-1015 | the loop reaches the offset of AdvanceIsLeastUncovered |
| Reassembler.CryptoFrameReassembler.GetContiguousData | src/network/types.rs:1018-1045 | the loop gathers the bytes of ContiguousMeaning |
| Reassembler.CryptoFrameReassembler.SetCompleteTlsInfo | src/network/types.rs:1048-1051 | only the cached TLS facts change |
| Reassembler.CryptoFrameReassembler.GetCachedTlsInfo | src/network/types.rs:1054-1060 | the cache answers only once marked complete |
| QuicMerge.CloseFreeRunIsMaximum | src/network/merge.rs:15-24 | without a CONNECTION_CLOSE the state after any run is closed if the start or any packet says so, else draining, else connected, else handshaking, else initial, and no close is recorded |
| QuicMerge.LastCloseDecides | src/network/merge.rs:721-763 | the recorded close is the last one seen; the state is the furthest, in that order, of what it calls for (draining after a transport close without error, else closed) and what came after |
| QuicMerge.ClosingIsAbsorbing | src/network/merge.rs:556-568 | Draining and Closed are never left for another state, a close is never forgotten, and from either on the timeout is at most ten seconds |
| QuicMerge.ClosedDrainsIff | src/network/merge.rs:721-763 | over any run Closed becomes Draining if and only if the last close is a transport close without error and no packet after it says Closed |
| QuicMerge.CompleteSniIsStable | src/network/merge.rs:612-714 | a complete server name, and the ALPN list, version and cipher suite set by then, survive every later run, whatever the extractor answers |
| QuicMerge.SettledFactsAreSafeIff | src/network/merge.rs:612-660 | settled facts are safe from every later run, with every possible extractor, if and only if the server name is complete or nothing else is known |
| QuicMerge.TwoPacketsForget | src/network/merge.rs:612-660 | two packets with the halves of a server-name extension leave a name and nothing else of what was known |
| QuicMerge.RunKeepsConsistent | src/network/merge.rs:586-660 | over any run a complete name in the reassembler's cache is the connection's name |
| QuicMerge.FoundNameIsCached | src/network/merge.rs:612-640 | a complete name that is found is cached and is the connection's name |
| QuicMerge.CacheIsSettled | src/network/merge.rs:612-640 | once a complete name is known no run changes the cache |
| QuicMerge.MergeKeepsReassembler | src/network/merge.rs:586-640 | one merge keeps the buffer's invariant and every byte it holds |
| QuicMerge.RunKeepsReassembler | src/network/merge.rs:586-640 | so does every run |
| QuicMerge.ConnectionPrefixIsStream | src/network/merge.rs:586-610 | when every packet's CRYPTO data is cut from one stream, the connection's data is always a prefix of it |
| QuicMerge.ConnectionIsOrderIndependent | src/network/merge.rs:586-610 | chunks of the first n bytes spread over packets in any way and order: once each has come, the connection's data is exactly those bytes |
| QuicMerge.RunRemembers | src/network/merge.rs:556-769 | over any run the first version and connection id stay, the last close and idle timeout count, and CRYPTO data seen is not forgotten |
| QuicMerge.HexFollowsId | src/network/merge.rs:571-584 | over any run the text of the connection id is that of the id |
| QuicMerge.LastTypeShows | src/network/merge.rs:571-572 | the packet type is the last packet's |
| QuicMerge.PacketsTeach | src/network/merge.rs:662-714 | over any run of packets without CRYPTO data the version, cipher suite and protocols are the first known, the name the first complete one or else the first |
| QuicMerge.FirstCryptoIsAdopted | src/network/merge.rs:586-596 | the first CRYPTO data is adopted as it is, and nothing is extracted from it yet |
| QuicMerge.QuicConnection.MergeInfo | src/network/merge.rs:556-769 | the in-place merge is `Merge`, the step of every run above |
| QuicMerge.QuicConnection.MergeIdentity | src/network/merge.rs:556-584 | its part for state progress, packet type, connection id and version |
| QuicMerge.QuicConnection.MergeCrypto | src/network/merge.rs:586-660 | its part for CRYPTO data, re-extraction and the packet's cached facts |
| QuicMerge.QuicConnection.MergeFragments | src/network/merge.rs:597-610 | the loop delivers the packet's fragments one by one |
| QuicMerge.QuicConnection.MergeRest | src/network/merge.rs:662-769 | its part for TLS facts, close and idle timeout |
| TcpObserver.StateClimbs | src/network/merge.rs:28-61 | over any run the state only climbs a fixed rank, changes at most six times, and Closed is final |
| TcpObserver.ClosedIff | src/network/merge.rs:28-61 | over any run Closed is reached by a reset in whatever state, or by the last ACK of a passive close, and by nothing else |
| TcpObserver.UnknownUntilOpened | src/network/merge.rs:35-43 | over any run nothing is known until a lone SYN, a bare ACK, a FIN with ACK or a reset comes |
| TcpObserver.ConnectionBegins | src/network/merge.rs:35-43 | with the first of these a SYN from this host leads to SYN_SENT, one from the other side to SYN_RECEIVED, an ACK or FIN with ACK to an established connection met midway |
| TcpObserver.ActiveOpenIff | src/network/merge.rs:36-38 | over any run without a reset SYN_SENT is left exactly by the SYN-ACK that answers |
| TcpObserver.PassiveOpenIff | src/network/merge.rs:36-39 | over any run without a reset SYN_RECEIVED is left exactly by a bare ACK that this host sends |
| TcpObserver.ActiveOpenCompletes | src/network/merge.rs:36-38 | from the first such SYN-ACK on the run is that of an established connection |
| TcpObserver.PassiveOpenCompletes | src/network/merge.rs:36-39 | from the first such ACK on the run is that of an established connection |
| TcpObserver.CloseBegins | src/network/merge.rs:45-47 | a connection stays established until the first FIN, whose sender decides which side closes |
| TcpObserver.ActiveCloseIff | src/network/merge.rs:45-54 | over any run without a reset after a local FIN: TIME_WAIT once the other side has sent a bare ACK and finished, FIN_WAIT_2, CLOSING or FIN_WAIT_1 with one or none of these |
| TcpObserver.CombinedFinIsMissed | src/network/merge.rs:48-54 | when the other side's FIN carries the ACK of ours, CLOSING until a bare ACK comes, where the standard has TIME_WAIT at once |
| TcpObserver.PassiveCloseIff | src/network/merge.rs:51-52 | over any run without a reset after a remote FIN: LAST_ACK once this host has finished too, Closed once that is acknowledged |
| TcpObserver.PassiveOpenIsMissed | src/network/merge.rs:36-39 | the three segments of a handshake opened by the other side leave SYN_RECEIVED |
| TcpObserver.RunIsJustified | src/network/merge.rs:28-61 | TIME_WAIT means a FIN from each side; Closed without a reset means remote FIN, local FIN, remote ACK, in that order |
| TcpObserver.LongRunsStep | src/network/merge.rs:139-161 | one more ACK number completes a long run exactly when the run at the end reaches four |
| TcpObserver.FastRetransmitsAreLongRuns | src/network/merge.rs:139-161 | the counter is the number of maximal runs of at least four equal non-zero inbound ACK numbers; the duplicate count is the current run less one |
| TcpObserver.CountersCountSegments | src/network/merge.rs:82-137 | over every run the retransmission counter is the number of outbound segments that take sequence numbers and start before the end of the outbound data without a gap; the out-of-order counter is the number of inbound ones that start before the end of the newest inbound data |
| TcpObserver.StreamOutCountsNone | src/network/merge.rs:82-112 | an outbound stream in sequence counts no retransmission, over a wrap too, whatever comes in between |
| TcpObserver.StreamInCountsNone | src/network/merge.rs:113-137 | an inbound stream in sequence counts nothing out of order |
| TcpObserver.RepeatsCountEach | src/network/merge.rs:82-112 | after any run, segments that start before the end of the outbound data count one each |
| TcpObserver.StreamAndRepeats | src/network/merge.rs:82-112 | a stream in sequence that does not wrap, then any of its segments again in any number: the counter is how many came again |
| TcpObserver.RepeatCountsIff | src/network/merge.rs:93-95 | a segment sent again at once is counted exactly when it does not reach past the largest sequence number |
| TcpObserver.GapStopsCounting | src/network/merge.rs:96-109 | after a gap nothing is counted until a segment starts where the gap does |
| TcpObserver.TcpAnalytics.constructor | src/network/types.rs:1742-1753 | all analytics start at zero |
| TcpObserver.TcpAnalytics.AnalyzeSegment | src/network/merge.rs:65-165 | the in-place analysis is `Analyze`, the step of the runs above, and it reports exactly what the counters gained |
| Rates.PruneIsCanonical | src/network/types.rs:1614-1630 | pruning leaves one and the same window of the history, whatever was pruned before |
| Rates.PrunedIsRecent | src/network/types.rs:1614-1630 | after pruning every sample lies within the window before the last update |
| Rates.PruneFollows | src/network/types.rs:1614-1630 | whatever the clock does, what is left are the last so many updates, within the cap |
| Rates.PruneLeavesWindow | src/network/types.rs:1614-1630 | what pruning leaves are the updates of the ten seconds before the last one, or the newest 20,000 of them |
| Rates.UpdateTracks | src/network/types.rs:1587-1609 | an update in order of time leaves nothing of the window out but by the cap |
| Rates.SmoothRateBounds | src/network/types.rs:1778-1791 | what shows is at most the larger of raw and previous rate, a rise at once, on a fall less than before but no less than raw, and zero or at least one byte per second |
| Rates.StoppedRateVanishes | src/network/types.rs:1763-1791 | a stopped rate shrinks by 0.15 a refresh and is zero exactly once below one; it is zero after three exactly when it was small |
| Rates.FallIsGentle | src/network/types.rs:1778-1791 | on a fall to a lower rate every refresh leaves four tenths of the distance |
| Rates.RateTracker.InitializeWithCounts | src/network/types.rs:1574-1577 | only the last counts change |
| Rates.UpdateGains | src/network/types.rs:1587-1600 | the newest sample is what each counter gained, and nothing for one that was set back |
| Rates.RateTracker.Update | src/network/types.rs:1587-1609 | one sample more, of exactly what each counter gained, within the cap |
| Rates.RateTracker.DropToCap | src/network/types.rs:1601-1603 | the loop leaves the newest 20,000 samples |
| Rates.RateTracker.PruneSamples | src/network/types.rs:1614-1630 | the loops leave the window of PruneIsCanonical |
| Rates.RateTracker.CalculateRate | src/network/types.rs:1653-1696 | the summing loop gives bytes over span, or zero when the window is too short or stale |
| Connections.PacketKeepsAccounts | src/network/merge.rs:169-328 | a merged packet is one sample, last counts and byte counters stay equal, and no sample of the window is missing when stamps come in order |
| Connections.RefreshKeepsAccounts | src/network/types.rs:2077-2086 | a refresh keeps them too |
| Connections.LifeIsAccounted | src/network/merge.rs:324-327 | over every life the samples are the last packets, the last counts the byte counters, and those the sums of the packets' lengths |
| Connections.LifeCounts | src/network/merge.rs:175-186 | over every life packet and byte counters are those of the packets of their own direction, the time of creation stays, and the last activity is the reading of the last packet |
| Connections.LifeRecognises | src/network/merge.rs:433-503 | over every life the application is the first one recognised, and if that is QUIC its facts are those of a run over all QUIC packets since |
| Connections.LifeTransports | src/network/merge.rs:188-239 | over every life the transport is that of the last packet until TCP is met, and from then on the observer's after all segments |
| Connections.WindowAccounting | src/network/types.rs:1587-1630 | the bytes in the samples are the counter now less the counter before the oldest of them |
| Connections.RawRateIsTraffic | src/network/types.rs:2077-2086 | a rate before smoothing, times its span, is the bytes counted since then, and after a refresh all samples are within the window that ends with the last packet |
| Connections.ShownRatesAreTraffic | src/network/types.rs:2077-2086 | when the window holds two packets or more over a second or more and is not stale, a rate that does not fall is, times that span, exactly the bytes of the window's packets of its own direction, or zero below a byte per second |
| Connections.OneWayShowsOneRate | src/network/types.rs:2077-2086 | a connection that only sends never shows an incoming rate, one that only receives no outgoing one |
| Connections.LifeIsObserved | src/network/merge.rs:188-239 | a TCP connection's state is the observer's after all its segments, its counters those of all but the first |
| Connections.LifeIsJustified | src/network/merge.rs:188-239 | so its state and its three counters mean what they say, over every life |
| Connections.SkippedShowsZero | src/app.rs:1364-1372 | a connection the refresh thread skips would show zero anyway, provided its last packet was stamped less than 20 s after its reading |
| Connections.LazyRefreshIsFaithful | src/app.rs:1364-1372 | skipping idle connections with zero rates shows, after every run, what refreshing all of them shows, in whatever order the clock readings of racing processors enter |
| Connections.LagBoundIsTight | src/app.rs:1364-1372 | a packet stamped exactly 20 s after its reading is enough for a rate to be skipped that should show |
| Connections.CountersAddUp | src/network/merge.rs:169-239 | a packet adds itself and the events it reports, and nothing else |
| Connections.ClosedQuicIsCleanedUp | src/network/types.rs:2093-2200 | a closed or draining QUIC connection is cleaned up after ten idle seconds, whatever came over UDP in between |
| Connections.CleanupKeepsTheRules | src/network/types.rs:2093-2200 | a connection is taken exactly after so many seconds: established 300 (HTTP and HTTPS 600, SSH 1800), opening or closing 60, TIME_WAIT and CLOSING 30, CLOSED 5; QUIC by its close, its state or the peer's idle timeout; the others by application |
| Connections.RulesAtTheEnds | src/network/types.rs:2093-2200 | no established connection goes within five minutes of its last packet, and whatever is not QUIC is gone after thirty |
| Connections.SecondReadingIsHarmless | src/network/types.rs:2146-2151 | reading the clock again, later, for the last minute's activity changes no decision |
| LiveConnections.LiveConnection.FromPacket | src/network/merge.rs:331-430 | a connection of fresh parts in the state every life starts from |
| LiveConnections.LiveConnection.MergeIn | src/network/merge.rs:169-328 | the in-place merge is the packet step of every life, reports its events, and owns nothing but its old and fresh parts |
| LiveConnections.LiveConnection.CountPacket | src/network/merge.rs:175-186 | activity and the counters of the packet's direction change, nothing else |
| LiveConnections.LiveConnection.MergeTcp | src/network/merge.rs:188-239 | its part for the TCP state and analytics |
| LiveConnections.LiveConnection.MergeDpi | src/network/merge.rs:433-503 | the first application recognised stays, and QUIC facts are merged into it |
| LiveConnections.LiveConnection.RefreshRates | src/network/types.rs:2077-2086 | the in-place refresh is the tick step of every life |
| LiveConnections.LiveConnection.TakeTurn | src/app.rs:1364-1372 | one turn of the refresh thread at the object |
| LiveConnections.LiveConnection.Play | src/network/merge.rs:169-328 | any sequence of packets and turns takes the object through the life the theorems are about |
| LiveConnections.Live | src/network/merge.rs:331-430 | a whole life of an object, from its first packet on |
| ConnectionTable.StepKeepsBound | src/app.rs:2028-2037 | each step keeps the number of keys in the table or past their limit check within the bound |
| ConnectionTable.ClaimsDoNotGrow | src/app.rs:2028-2084 | only passing the limit check claims a new key |
| ConnectionTable.TableIsBounded | src/app.rs:2028-2084 | with p processors the table never holds more than 50,000 + p - 1 connections, in any interleaving |
| ConnectionTable.TableAsStarted | src/app.rs:654-664 | as started on any machine, never more than 50,003 |
| ConnectionTable.BoundIsReached | src/app.rs:2028-2084 | some interleaving of p processors reaches the bound |
| ConnectionTable.EntriesAreLives | src/app.rs:2039-2084 | over every run a key is in the table exactly while it has a story, which begins when a processor enters with it, goes on with each packet entered and each refresh of that key, and ends with its removal; the entry is the life the story tells |
| ConnectionTable.ArchivedAreLives | src/app.rs:1595-1655 | the archived connections are, one by one, what the stories that ended in a removal by cleanup tell |
| ConnectionTable.StoriesAreOwn | src/app.rs:2028-2084 | every packet in a key's story entered `update_connection` in this run under that key, and every refresh in it was one of that key |
| ConnectionTable.RetiredByTheRules | src/app.rs:1595-1655 | over every run cleanup takes an entry exactly when more seconds than its protocol and state allow have passed since the reading its key's last packet brought along |
| ConnectionTable.TrackersAgree | src/app.rs:2039-2084 | so every tracker in the table has its connection's byte counters as last counts |
| ConnectionTable.SkippingNeverShows | src/app.rs:1364-1372 | over every run of the whole machine, skipping idle connections with zero rates changes no key, rate, counter or archived connection |
| ConnectionTable.EnterConserves | src/app.rs:2039-2084 | entering the table moves a packet and its events from in flight to counted |
| ConnectionTable.RetireConserves | src/app.rs:1595-1655 | removing a timed-out entry moves its counts to the archive |
| ConnectionTable.RunConserves | src/app.rs:2028-2084 | over every run without a clear: packets, bytes and the three TCP counters reported equal those of live and archived connections, those turned away and those in flight |
| ConnectionTable.AtRestNothingIsMissing | src/app.rs:2028-2084 | with nothing in flight: live plus archived are exactly the packets and bytes not turned away, and the global TCP counters |
| SharedTables.Tables.UpdateConnection | src/app.rs:2028-2084 | undisturbed, it is the three steps look up, check the limit, enter, with one clock reading before and one stamp under the lock |
| SharedTables.Tables.RefreshPass | src/app.rs:1364-1372 | the sweep refreshes exactly the connections that need it, whatever the clocks read at each, as a run of refresh steps |
| SharedTables.Tables.CleanupPass | src/app.rs:1595-1677 | a pass removes exactly the connections whose seconds are over by those rules, as a run of retire steps, and is one more of the passes NothingIsLostIff is about; at most 5,000 stay archived |
| SharedTables.Tables.Retain | src/app.rs:1595-1653 | the visit keeps exactly what has not timed out and hands over the rest, as a run of retire steps |
| SharedTables.Tables.EnforceLimit | src/app.rs:1662-1677 | exactly the excess is dropped and nothing dropped closed later than a survivor |
| SharedTables.Tables.ArchiveAll | src/app.rs:1656-1660 | the loop inserts every connection collected under its own key |
| SharedTables.Tables.ArchivePass | src/app.rs:1656-1677 | the archive after a pass is the next of the sequence Archive is about |
| SharedTables.Tables.ClearAll | src/app.rs:1898-1939 | it is the three steps that empty table, archive and TCP counters one after the other |
| Archive.KeyTellsApart | src/app.rs:1615-1622 | two connections share the archive's string key exactly when they share table key and time of creation, colons in table keys notwithstanding |
| Archive.NothingIsLostIff | src/app.rs:1595-1677 | over every sequence of passes, all ever archived stays until it is dropped as oldest-closed, if and only if no pass puts another entry where there is one |
| Archive.OverwriteIsReuse | src/app.rs:1611-1622 | which takes a table key closed again, with the same time of creation, while the first is still archived |
| Archive.DistinctTimesLoseNothing | src/app.rs:1611-1622 | closed connections of one 4-tuple with different creation times never displace each other |
| Archive.RoomyArchiveLosesNothingIff | src/app.rs:1611-1622 | while the archive has room, nothing is lost if and only if creation times under one table key are distinct |
| Archive.NewestStay | src/app.rs:1662-1677 | a pass evicts nothing it has just archived while an older entry remains |
| Eviction.Collect | src/app.rs:1664-1671 | every key is listed once, with its time |
| Eviction.SortLists | src/app.rs:1672 | sorting by time keeps the entries and puts the oldest first |
| Eviction.RemoveFirst | src/app.rs:1673-1676 | exactly the first listed keys go |
| Eviction.RemovingOldest | src/app.rs:1673-1676 | removing the first n of such a list removes n entries, none younger than a survivor |
| GeoIp.GeoIpResolver.Lookup | src/network/geoip.rs:256-287 | always the uncached answer; a hit changes nothing, a miss is cached now, an overflow leaves exactly three quarters of the limit, the youngest |
| GeoIp.GeoIpResolver.EvictOldestEntries | src/network/geoip.rs:330-349 | exactly three quarters of the limit stay and no survivor is older than an evicted entry |
| GeoIp.SelectNth | src/network/geoip.rs:339 | some rearrangement with the n oldest in front |
| GeoIp.LookupAll | src/network/geoip.rs:256-287 | over every history of lookups and clock readings every answer is the uncached one and the cache stays within its limit |
| GeoIp.SpecialBlocksExactly | src/network/geoip.rs:353-374 | for IPv4 the test on single bytes accepts exactly the eleven special address blocks, read as numbers |
| GeoIp.SpecialBlocksExactly6 | src/network/geoip.rs:364-372 | for IPv6 the test on segments accepts exactly ::1, ::, fe80::/10 and fc00::/7, read as numbers |
| TlsHello.ParseAlpnExtension | src/network/dpi/https.rs:355-399 | the loop reads the list of ParseAlpnCut |
| TlsHello.ParseSupportedVersions | src/network/dpi/https.rs:401-437 | the loop finds the version of ParseVersionsCut and BestIsHighest |
| TlsHello.ParseExtensions | src/network/dpi/https.rs:257-313 | the loop over at most 100 extensions, a client's or a server's, is the one of ExtensionsCut |
| TlsHello.ParseClientHello | src/network/dpi/https.rs:132-197 | the walk to the extensions and past them is the one AnyPrefixIsExact and WholeRecord are about |
| TlsHello.ParseServerHello | src/network/dpi/https.rs:199-255 | the walk is the one AnyReplyPrefixIsExact and WholeReply are about |
| TlsHello.AnalyzeHttps | src/network/dpi/https.rs:22-120 | the record and handshake checks let through what the record theorems of both hellos are about |
| TlsRoundTrip.SniCut | src/network/dpi/https.rs:315-353 | of a server-name body cut anywhere: nothing before the name begins, then its marked prefix, then the name, and nothing of what is not visible ASCII |
| TlsRoundTrip.ParseAlpnCut | src/network/dpi/https.rs:355-399 | of a protocol list cut anywhere the protocols that are there and are text are read, the last one marked when it is cut |
| TlsRoundTrip.ParseVersionsCut | src/network/dpi/https.rs:401-437 | of a version list cut anywhere the whole versions that are there are folded |
| TlsRoundTrip.BestIsHighest | src/network/dpi/https.rs:401-445 | the fold over a version list is TLS 1.3 if 3,4 is in it, else 1.2 if 3,3 is, else 1.1 if 3,2 is, else 1.0 if 3,1 is, else what was known |
| TlsTypes.PartialIsMarked | src/network/dpi/quic.rs:135-137 | a name counts as partial exactly when it could be the marked part of one |
| TlsRoundTrip.ExtensionsCut | src/network/dpi/https.rs:257-313 | of an extension list cut anywhere exactly what is there is reported: name, protocols and version, for a client's list and a server's |
| TlsRoundTrip.AnyPrefixIsExact | src/network/dpi/https.rs:22-437 | from every prefix of a well-formed record: of the name nothing, its marked part, or all; of the protocols those there that are text, the last one marked when cut; the highest known of the versions there |
| TlsRoundTrip.WholeRecord | src/network/dpi/https.rs:22-437 | the whole record gives exactly the server name, the protocols that are text and the highest known version on offer, or else the hello's or the record layer's |
| TlsReply.ReplyCut | src/network/dpi/https.rs:199-313 | from every prefix of a ServerHello: its version, known or not, from the second byte on, then the cipher suite, then exactly what is there of the extensions |
| TlsReply.AnyReplyPrefixIsExact | src/network/dpi/https.rs:22-437 | the same from every prefix of the whole record, and never a server name |
| TlsReply.WholeReply | src/network/dpi/https.rs:22-437 | the whole record gives exactly the cipher suite, the protocols that are text, and the version |
| TlsReply.NegotiatedVersion | src/network/dpi/https.rs:199-437 | which is the one supported_versions selects, if known, or else the hello's own; the record layer's never counts |
| TlsTrailing.AlpnBehind | src/network/dpi/https.rs:355-399 | what stands behind a whole protocol list is not read |
| TlsTrailing.VersionsBehind | src/network/dpi/https.rs:401-437 | nor behind a whole version list of even length |
| TlsTrailing.OddListReadsOn | src/network/dpi/https.rs:410-411 | one of odd length is read one byte too far |
| TlsTrailing.ClientHelloBehind | src/network/dpi/https.rs:132-197 | nor behind the extensions of a ClientHello |
| TlsTrailing.ServerHelloBehind | src/network/dpi/https.rs:199-255 | nor behind those of a ServerHello |
| TlsTrailing.OnlyTheFirstMessage | src/network/dpi/https.rs:22-120 | of a record only the first message is read, and nothing behind the record |
| TlsTrailing.ClientRecordAndMore | src/network/dpi/https.rs:22-437 | so a ClientHello gives all it says whatever follows it in its record and behind |
| TlsTrailing.ServerRecordAndMore | src/network/dpi/https.rs:22-437 | and a ServerHello too |
| TlsTrailing.OthersGiveTheVersion | src/network/dpi/https.rs:22-120 | every input that is no handshake, too long by its own account, or neither hello, gives the record layer's version and nothing else |
| Mqtt.DecodeRemainingLength | src/network/dpi/mqtt.rs:119-136 | the loop is the decoder of LengthRoundTrip |
| Mqtt.LengthRoundTrip | src/network/dpi/mqtt.rs:119-136 | decoding undoes encoding for every length up to 268,435,455, in at most four bytes |
| Mqtt.DecodeIsBounded | src/network/dpi/mqtt.rs:119-136 | on every input at most four bytes are consumed and the value is in range |
| Mqtt.ParseConnect | src/network/dpi/mqtt.rs:165-213 | version and client id are filled in with the fields of ConnectRoundTrip |
| Mqtt.AnalyzeMqtt | src/network/dpi/mqtt.rs:5-115 | the analysis is the one of the round trips below, and what is recognised as MQTT is always analysed, as a CONNECT |
| Mqtt.ConnectRoundTrip | src/network/dpi/mqtt.rs:165-213 | every CONNECT, at level 5 with any properties, is recognised and gives the version of its level and its client id, whatever follows it |
| Mqtt.PublishRoundTrip | src/network/dpi/mqtt.rs:216-234 | every PUBLISH gives its topic and quality of service, whatever follows it |
| Mqtt.OtherRoundTrip | src/network/dpi/mqtt.rs:56-115 | every other packet gives its type, SUBSCRIBE with quality of service 1, and the five numbers without a type nothing |
| Mqtt.RecognisedIff | src/network/dpi/mqtt.rs:5-53 | on every input MQTT is recognised exactly by a CONNECT without flags, a length that runs at most four bytes past the data, and the protocol name |
| Ipv6.ParseExtensionHeaders | src/network/parser.rs:612-660 | the loop is the walk of ChainRoundTrip, and ends on every input |
| Ipv6.WalkGrows | src/network/parser.rs:612-660 | on every input each header moves the offset by at least eight, and the walk ends within one header of the data |
| Ipv6.ChainRoundTrip | src/network/parser.rs:612-660 | the walk finds the upper protocol and the sum of the header lengths if and only if what follows does not look like one more header |
| Ipv6.CutChain | src/network/parser.rs:612-660 | a packet cut inside a header: the walk stays there when its length cannot be told, else takes the protocol the header names and ends past the data |
| Dns.ParseName | src/network/dpi/dns.rs:6-125 | the label loop is the reader of QuestionRoundTrip, and ends on every input |
| Dns.AnalyzeDns | src/network/dpi/dns.rs:6-125 | the analysis is the one of QuestionRoundTrip |
| Dns.QuestionRoundTrip | src/network/dpi/dns.rs:6-125 | every question with labels of 1 to 63 bytes of text and a dotted form of at most 253, ended by the root label or a pointer, gives that form, its type if it is there, and the QR bit |
| Dns.QuestionCut | src/network/dpi/dns.rs:6-125 | cut inside a label it gives the whole labels, and the cut label's length and first byte as its type |
| Dns.HeaderOnly | src/network/dpi/dns.rs:6-30 | without a question there is only the QR bit, without a whole header nothing |
| Dns.NameIsBounded | src/network/dpi/dns.rs:6-125 | on every input the name stays within one label of its limit and within the bytes there |
| Dhcp.ParseOptions | src/network/dpi/dhcp.rs:55-105 | the option loop is the walk of OptionsRoundTrip, and ends on every input |
| Dhcp.AnalyzeDhcp | src/network/dpi/dhcp.rs:22-44 | the analysis is the one of PacketRoundTrip |
| Dhcp.CollectedIsLast | src/network/dpi/dhcp.rs:55-105 | what a list leaves behind is its last non-empty message type and its last valid hostname |
| Dhcp.OptionsRoundTrip | src/network/dpi/dhcp.rs:55-105 | every option list with pads is read so, whatever follows END |
| Dhcp.PacketRoundTrip | src/network/dpi/dhcp.rs:22-120 | every packet with such a list gives the message of its type's code, its hostname and an address that reads back to its six bytes, and is refused exactly when it has no type |
| Utf8.TextIsEncoded | src/network/dpi/https.rs:338 | what is taken for text are exactly the encodings of Unicode scalar values |

## Left out

- Packet capture, device selection, privileges, process lookup, logging, pcap export, decoding of the GeoIP databases and of QUIC packets: input, output and foreign calls.
- The user interface, its sorting and its snapshots: rendering.
- The DNS resolver threads, SSH, HTTP, NTP, STUN, SSDP and BitTorrent recognisers, and the name tables: lookups and single branches.
- LiveConnections.LiveConnection.MergeDpi: the fields of HTTP, HTTPS, DNS, SSH, BitTorrent and MQTT facts are not merged; the first recognised application stays as it was. Those merges are single branches on one field each.
- Dns.AnalyzeDns: query types stay codes, without the table of their names; `response_ips` stays empty, as in the code.
- Connection-id redirection of QUIC packets: the table key of a packet is any key, so every redirection is covered, but the mapping itself is not modelled.
- Round-trip times, connection direction, process and service names of a connection.
- `try_extract_tls_from_reassembler`: each merge meets arbitrary answers, or for `QuicMerge.SettledFactsAreSafeIff` those that every extractor of this kind can give; that one and the same data always gives one and the same answer is not used.
- Integer widths: counters, offsets, times and sizes are unbounded; a QUIC offset is below 2^62 and the sizes are small, so only the 32-bit duplicate-ACK count and the 64-bit counters could wrap. TCP sequence and ACK numbers are 32 bits and wrap as in the code.
- Floating point: rates are real numbers, and the factor 1.1 of the staleness test is the exact fraction.
- Clocks: the system clock and the monotonic clock read on one line of nanoseconds, each reading in a packet's entry and in a refresh its own; a time before another counts as no time between them. A tracker and its connection agree on byte counts at every moment, but the times of their last update are different readings and differ.
- Connections.TcpTimeout: the choice between the two timeouts of an established connection uses the cleanup pass's own reading of the clock, while `idle_time` (`src/network/types.rs:1919-1921`) reads it again; `Connections.SecondReadingIsHarmless` covers a later reading, a clock set back in between is not.
- Connections.LazyRefreshIsFaithful: a packet stamped 20 seconds or more after its clock reading is not covered, because the claim fails there; neither is a system clock set back or forth by as much.
- ConnectionTable.TableIsBounded: takes a `len` of the concurrent map as one step, while the map adds up its shards one after the other.
- ConnectionTable.RunConserves: says nothing about `packets_dropped`, which the capture thread overwrites, nor about runs with a clear.
- SharedTables.Tables.CleanupPass: the QUIC connection-id mapping is not cleaned up.
- SharedTables.Tables.ClearAll: the traffic history, round-trip tracker, interface snapshot and the counters other than the three TCP ones are not part of this model, so their clearing is not; the three TCP counters are cleared in one step.
- GeoIp.GeoIpResolver.Lookup: one caller at a time; one clock reading serves for the age test and for the new entry's stamp, where the code reads twice; the database answer is a fixed function of the address.
- TlsRoundTrip.WholeRecord: nothing is promised of lists with more than 100 extensions, which are cut off as in the code, nor of one extension type given twice; the same holds for TlsReply.WholeReply.
- Mqtt.PublishRoundTrip: the topic is all that is read of the variable header.
- TcpObserver.CountersCountSegments: what a segment that wraps or follows a gap was meant to be is not known to the code, so the counters are those of its own comparison; where that misses a retransmission is stated, not mended.
