# xray-exporter: a verified model

A Dafny 4.11 model of the stateful parts of xray-exporter, with proofs of what they guarantee over whole runs.
`dafny verify dfyconfig.toml` checks everything.

The model has four parts.

**Log tailer and windowed metrics** (`Ring`, `ConnectionWindow`, `Counting`, `TopN`, `LogText`, `Traffic`, `AccessLine`,
`Contributions`, `Parser`, `LogSystem`, `LogTheorems`, `CardinalityTheorems`, `WindowTheorems`, `DisorderTheorems`,
`Miscounts`, `LoopTheorems`, `Rotations`).
`Parser` holds the objects, `MetricsDelta`, `MetricsData` and `LogParser`, whose methods update maps, the ring slice, head
and size, `lastPos` and `lastInode` in place; each method is proved against a function on values (`Traffic.Metrics`,
`Traffic.Delta`). `AccessLine` says what one line contributes; accumulation is proved for any such reader
(`Traffic.Reader`). `Contributions` retells lines and whole runs by the parts a line is made of and the answers of the
foreign code, and `CardinalityTheorems` retells trims by their numbers. `LogSystem` is one transition system over those values, in which the log writer (append, rotate,
truncate), the parser goroutine (open, read, merge, commit, trim) and scrapers interleave freely; the theorems speak of
every run of it, and whatever `Parser.LogParser.ParseLoop` does is embedded in such a run (`LoopTheorems.LoopIsARun`). A
scrape's connection count and user count, and the exported counts of heavy hitters, are shown to be functions of the
history of complete lines.

**Address filter** (`Recency`, `IpFilter`). `IpFilter` has `container/list` as a linked ring of elements through a sentinel,
the lookup map, and the two critical sections of `ShouldFilter` as two methods. `Recency` interleaves the two sections of
any number of concurrent calls.

**Snapshot store** (`SnapshotStore`, `Retention`, `Pagination`, `QuietPages`). Saving appends to an array-backed slice,
compacts it over itself and sorts it; reading pages follows cursors, on a quiet store and while saves keep coming.

**Billing** (`Words`, `Billing`, `Normalize`, `Accounts`). The identity index, the resolution of one counter, and the
aggregation into one sample per account with int64 arithmetic; `Accounts` tells the samples by the fields of the payload.

## Conventions

- Times are integers (nanoseconds on one time line, with Go's zero time at 0 for snapshots). The log is a sequence of bytes, one `char` each.
- A count map stands for a bag of keys: `Tallies` says it is exactly the bag's histogram, `Understates` that it tracks
  some of the keys, positively and never too high.
- Regular expressions, `net.ParseIP`, the public suffix list and the GeoIP readers are function-valued parameters
  (`AccessLine.Foreign`, `IpFilter.AddressRules`), so every theorem holds for all of them. `Foreign.filtered` is the uncached
  decision; `Recency.CacheIsMostRecent` and `IpFilter.IPFilter.ShouldFilter` show that the cache never answers otherwise.
- Library sorts promise a sorted permutation and nothing about ties; ranging over a map picks keys in any order.
- The clock, the reach of a read, and the success of disk writes are parameters of the steps.

## Where the source falls short, and when

- **Replaced log files.** The exactly-once theorems assume `LogSystem.Recognisable` of every step so far: identities are
  not 0 (0 means "first run" to the parser), a replaced file differs in identity or is shorter than the saved position
  when it is opened (or nothing had been read yet), and no truncation hits a file between being opened and being read.
  `LogTheorems.ReplacementReadWholeIff` says exactly when a replacement is read whole;
  `LoopTheorems.UndetectedTruncationLoses` and `TruncationMidPassLoses` are runs that lose lines. No other theorem on the
  parser needs the assumption.
- **Rotations.** Once the new file has been opened, nothing of the old one is merged any more (`Rotations.LeftBehind`), so
  lines that reach it after its last pass are lost for ever (`RotationLosesTail`). Everything ever written is merged if
  and only if no generation has a complete line after the place where merging it ended (`AllMergedIff`).
- **Trimming.** The counts are the exact histogram if and only if no trim has found more entries than it keeps
  (`LogTheorems.CountsConserved`).
- **Logs out of order, and overflowing buffers.** `DisorderTheorems.ReportedInAnyOrder` says for every run what a scrape
  reports and when it is right, in terms of the recorded timestamps, the capacity and the cutoff; `UsersInAnyOrder` does so
  for the users. Both are exact for logs in time order (`OrderedConnectionsAreExact`, `OrderedUsersAreExact`,
  `WindowTheorems.ScrapeIsExact`). `Miscounts.OutOfOrderMiscounts` has, for every capacity, a run that counts too much or
  too little.
- **Clocks that go back.** The theorems above ask of a scrape that its clock reading is the latest so far, or that no
  client line lies between its cutoff and the latest one (`DisorderTheorems.IsScrape`). For any clock at all,
  `ConnectionsAtAnyClock` and `UsersAtAnyClock` say exactly when a scrape is right, in terms of what the buffer and the
  map still hold. `Miscounts.ClockBackForgets` is a run in which it is not.
- **Pages.** A snapshot is delivered if and only if the request that decides about it finds it in the store and in the
  range of that request, and the page does not end on its timestamp without it (`Pagination.DeliveredIff`: any session,
  any saves, any ranges). Ranges left to the handler's defaults move with the clock: `MovingRangeMisses` loses a snapshot
  that way. On a quiet store with one range, the pages are exactly the range if and only if no cut of it into runs of
  `limit` goes through equal timestamps (`QuietPages.DeliversAllIff`); `TieLosesOne` is the smallest loss.
- **Go's zero time as a cursor.** A client that follows `NextCursor` on a quiet store finishes if and only if no page that
  promises more ends on the zero time (`QuietPages.SessionEndsIff`); `StartsOverIff` and `ZeroTimeTraps` show the loop.
  Zero times inside a page are harmless. Sessions with saves in between are followed as long as no such cursor is sent.
- **Identities without any UUID** let their email through as a billing UUID (`Billing.EmailOnlyIdentityLeaks`);
  `EmailProofIff` is the exact condition on the index.

## Model

| member | source | states |
|---|---|---|
| Ring.WriteIsPush | internal/logparser/parser.go:192-204 | growing or overwriting at the head is a push on the bounded deque (oldest dropped when full), indices stay in range, and below capacity the head stays the length |
| Ring.TailIsOldest | internal/logparser/parser.go:359 | the tail formula finds the oldest entry although Go's remainder may be negative |
| Ring.ForgetIsTail | internal/logparser/parser.go:363 | shrinking the size field drops exactly the oldest entry |
| Parser.MetricsData.AddConnectionTimestamp | internal/logparser/parser.go:192-204 | the in-place write refines the deque push |
| Parser.MetricsData.Tail | internal/logparser/parser.go:357-360 | the computed index is inside the slice and holds the oldest in-window entry |
| Parser.MetricsData.ExpireConnections | internal/logparser/parser.go:357-364 | expiry removes the longest prefix not after the cutoff and returns what is left |
| Parser.MetricsData.ExpireUsers | internal/logparser/parser.go:338-352 | exactly the users last seen after the cutoff stay and are counted |
| Parser.MetricsData.GetMetrics | internal/logparser/parser.go:332-367 | a scrape's whole new state and both returned numbers, all maps untouched |
| Parser.MetricsData.MergeBatch | internal/logparser/parser.go:601-626 | counts added, last-seen times overwritten, timestamps pushed in order; position untouched |
| Parser.MetricsData.MergeCounts | internal/logparser/parser.go:602-619 | each of the six maps becomes the pointwise sum with its own delta map |
| Parser.MetricsData.MergeUsers | internal/logparser/parser.go:620-622 | the batch's last-seen times win |
| Parser.MetricsData.MergeTimestamps | internal/logparser/parser.go:623-625 | the batch's timestamps are pushed one by one, in order |
| Parser.MetricsData.TrimToTopN | internal/logparser/parser.go:213-223 | each map is cut to its own top entries, 10 outbounds and 20 of everything else, ties broken arbitrarily |
| Parser.MetricsData.CheckEmergencyCleanup | internal/logparser/parser.go:226-240 | untouched if there are at most 100 domains, 40 addresses, 20 outbounds and 100 of each geography key, cut otherwise; within those thresholds afterwards |
| Parser.LogParser.ProcessLine | internal/logparser/parser.go:517-598 | a line adds to the batch exactly its contribution in every category, and its client |
| Parser.LogParser.CountRequest | internal/logparser/parser.go:528-543 | domain, direct address and outbound are counted whatever the line's age |
| Parser.LogParser.CountClient | internal/logparser/parser.go:555-597 | timestamp, last-seen and geography of a recent unfiltered client |
| Parser.LogParser.ReadString | internal/logparser/parser.go:489-495 | the next complete line, or none if only a partial line is left |
| Parser.LogParser.ReadOne | internal/logparser/parser.go:488-498 | one turn of the reading loop consumes one whole line or nothing |
| Parser.LogParser.ReadBatch | internal/logparser/parser.go:480-498 | the batch is the fold of all complete lines read and the new position follows the last of them |
| Parser.LogParser.ChooseStart | internal/logparser/parser.go:456-473 | the start position and the adopted identity in each of the four cases |
| Parser.LogParser.ParseLogFile | internal/logparser/parser.go:444-512 | the whole effect of a pass on metrics and position, and of a failed open or seek |
| Parser.LogParser.ParseLoop | internal/logparser/parser.go:420-440 | over any ticks, each tick leaves exactly what its pass and trim leave: cleanup ticks always trim, parse ticks only past a threshold |
| Parser.LogParser.DoTick | internal/logparser/parser.go:426-437 | one tick: the pass and then the emergency cleanup, or the regular trim |
| Parser.TickEndsWithin | internal/logparser/parser.go:27-40 | at the end of every tick each count map is within its cleanup threshold, whatever it was before |
| LoopTheorems.TickIsARun | internal/logparser/parser.go:420-512 | every tick is a stretch of a run of the transition system (open, read, merge, commit, trim), failed opens and seeks included |
| LoopTheorems.LoopIsARun | internal/logparser/parser.go:420-512 | whatever the ticks of a new parser find, some run from the initial state ends where the loop ends, with the same lines merged and the same trims |
| LoopTheorems.LoopCounts | internal/logparser/parser.go:213-266 | what the loop leaves behind never overstates a count, and has every key exactly that had few rivals at each trim |
| LoopTheorems.LoopCountsOnce | internal/logparser/parser.go:432-509 | while the ticks find one growing file and no trim finds more entries than it keeps, cleanup ticks included, the loop leaves the histogram of its complete lines up to the position |
| Parser.FullPassCatchesUp | internal/logparser/parser.go:488-509 | after a pass that reads to the end of file no complete line is left unread |
| Counting.MergeInto | internal/logparser/parser.go:602-619 | the range loop over a delta map adds pointwise, in whatever order the keys come |
| TopN.KeepTopN | internal/logparser/parser.go:243-266 | min(N, size) entries survive unchanged and none that was dropped was counted higher |
| TopN.TopEntries | exporter.go:396-405 | the export is min(n, size) distinct entries, best first, dominating everything omitted |
| TopN.TrimThenExport | exporter.go:396-405 | exporting the trimmed map is a true top N of the full map, however the two sorts break ties |
| TopN.FewRivalsSurvive | internal/logparser/parser.go:243-266 | a fully tracked key with fewer than N rivals survives any top-N cut: the cardinality argument |
| LogText.ExtractionUndoesFormatting | internal/logparser/parser.go:683-719 | extraction returns exactly the target formatted into the line, colons in it included |
| LogText.ExtractionIff | internal/logparser/parser.go:683-719 | on any line, a non-empty target is extracted exactly if it stands between the first protocol mark from the first "accepted " on and the last colon of the word there |
| LogText.AcceptedFound | internal/logparser/parser.go:685-688 | the keyword is found where the formatter put it; nothing straddles the prefix |
| LogText.LinesAreTheBytes | internal/logparser/parser.go:487-497 | complete lines and the partial rest together are exactly the bytes |
| LogText.LinesAreLines | internal/logparser/parser.go:489-496 | every consumed line has one newline, at its end |
| LogText.LinesSplit | internal/logparser/parser.go:484-498 | cutting at a line boundary neither loses, duplicates nor splits a line |
| LogText.ConsumedHasAllLines | internal/logparser/parser.go:490-496 | stopping at the last newline loses no complete line |
| LogText.TrimLineEndTrims | internal/logparser/parser.go:497 | what is cut off a line's end is carriage returns and newlines only, and all of them |
| LogText.ReadingUndoesWriting | internal/logparser/parser.go:480-498 | lines written with either line end are read back as they were, and reading stops before an unfinished one |
| LogText.SuffixHasAllLinesIff | internal/logparser/parser.go:472-478 | resuming at p sees all lines of a file only if p is 0 or there are none |
| Traffic.BatchingIsInvisible | internal/logparser/parser.go:480-504 | folding a private batch and merging it once equals recording its lines one by one under the lock |
| AccessLine.AgeDoesNotMatter | internal/logparser/parser.go:528-543 | a line counts the same domain, address and outbound in whatever pass it is read |
| Contributions.TrafficIff | internal/logparser/parser.go:136-159 | a line is looked at exactly if it has 19 characters, a digit from 1 to 9 first, a slash fifth and "from " somewhere |
| Contributions.OthersAddNothing | internal/logparser/parser.go:519-526 | any other line, and one that does not parse, leaves the batch as it was |
| Contributions.NameCounted | internal/logparser/parser.go:529-538 | a formatted request for a name counts its root domain and no address |
| Contributions.AddressCounted | internal/logparser/parser.go:529-538 | a formatted request for a target of address characters with a dot or colon counts the normalized address unless it is empty or filtered, and no domain |
| Contributions.NoTargetNoRequest | internal/logparser/parser.go:529-538 | a line without such a target counts neither domain nor address |
| Contributions.OutboundCounted | internal/logparser/parser.go:540-543 | the outbound of every parsed line is counted once |
| Contributions.ClientIgnored | internal/logparser/parser.go:545-553 | a filtered or too old client leaves no timestamp, no user and no geography |
| Contributions.ClientNoted | internal/logparser/parser.go:555-597 | any other client is noted with its time, and its network counted under number and organization, or as unknown twice |
| Contributions.CityReaderAnswers | internal/logparser/parser.go:565-595 | with an answering city reader, country, and city with country, are its own, each left out when unknown |
| Contributions.CountryReaderAnswers | internal/logparser/parser.go:565-595 | otherwise no city is counted, and a country only if a country reader stands alone and answers |
| Contributions.ClientsAreRealUsers | internal/logparser/parser.go:517-557 | the client list of a history has exactly the parsed entries of its traffic lines whose address is not filtered |
| Contributions.NoneFiltered | internal/logparser/parser.go:529-557 | in every state of every run, no user and no counted address is a filtered one |
| Contributions.OnlyPublicAddresses | internal/logparser/filter.go:135-160 | with this filter: none is a system address, a DNS server, malformed, or in a private network |
| Contributions.ScrapeCountsRealUsers | internal/logparser/parser.go:332-367 | for logs in time order, a scrape reports min(capacity, lines of unfiltered clients after the cutoff) and the addresses on them |
| Contributions.CutoffsAreReadings | internal/logparser/parser.go:480-484 | every merged line was judged by the clock reading of a pass that opened the file, less the window |
| ConnectionWindow.ExpireIsExactIff | internal/logparser/parser.go:354-364 | walking only the expired end counts correctly exactly when no stale entry hides behind a fresh one |
| ConnectionWindow.ExpireKeepsCounts | internal/logparser/parser.go:354-364 | earlier expiries never change a later count |
| ConnectionWindow.PushCounts | internal/logparser/parser.go:192-204 | one chronological arrival keeps the window count at min(capacity, full count) for every cutoff |
| LogSystem.ExactlyOnceThroughout | internal/logparser/parser.go:459-509 | in every run the merged lines are exactly the complete lines up to a line-boundary position in each file generation |
| LogSystem.ReadIsWholeLines | internal/logparser/parser.go:488-498 | whatever prefix a pass manages to read, it takes whole lines only |
| LogTheorems.TailedFileCountedOnce | internal/logparser/parser.go:484-509 | however an append-only file arrived and was cut into passes, and whatever trims found nothing to remove, the counts that ignore age are the histogram of its complete lines before the position, and of all of them once caught up |
| LogTheorems.BatchesAreAtomic | internal/logparser/parser.go:500-509 | while no trim removes anything, whatever a getter sees is a whole-batch prefix, and the saved position lags it by at most the last batch |
| LogTheorems.CountsConserved | internal/logparser/parser.go:213-223 | in every run and category: counts positive and never overstated, tracked plus discarded equals all increments, and the counts are the exact histogram if and only if no trim found more entries than it keeps |
| LogTheorems.HeavyHittersExact | internal/logparser/parser.go:213-266 | a key with few rivals at every trim is counted exactly, for any tie-breaking |
| LogTheorems.HeavyHittersExported | exporter.go:432-459 | and while it has few rivals the exporter publishes that exact count |
| CardinalityTheorems.FewKeysAreExact | internal/logparser/parser.go:26-40 | a run that has named at most 10 outbounds, or 20 keys of another kind, at each trim has the exact histogram |
| CardinalityTheorems.LoopIsExactForFewKeys | internal/logparser/parser.go:213-266 | the same over any ticks of the loop |
| CardinalityTheorems.HeavyKeysAreExact | internal/logparser/parser.go:213-266 | an outbound with fewer than 10 rivals at each trim, or another key with fewer than 20, is counted exactly |
| CardinalityTheorems.LoopIsExactForHeavyKeys | exporter.go:432-459 | the same over any ticks of the loop, and with as few rivals at the end the exporter publishes that count |
| CardinalityTheorems.ParseTickTrims | internal/logparser/parser.go:226-240 | a parse tick leaves what its pass left if that is at most 100 domains, 40 addresses, 20 outbounds and 100 of each geography key; otherwise it cuts all six maps to 20, outbounds to 10 |
| CardinalityTheorems.CleanupTickTrims | internal/logparser/parser.go:213-223 | a cleanup tick cuts all six, whatever their sizes, and touches nothing else |
| LogTheorems.ReplacementReadWholeIff | internal/logparser/parser.go:459-472 | the exact condition under which a replaced file is read whole |
| LoopTheorems.UndetectedTruncationLoses | internal/logparser/parser.go:459-472 | every truncation that regrows past the saved position with complete lines before it: a run in which those lines are never merged |
| LoopTheorems.TruncationMidPassLoses | internal/logparser/parser.go:472-498 | the same when the file is truncated between being opened and being read |
| Rotations.LeftBehind | internal/logparser/parser.go:463-466 | once a later file has been opened, how far an earlier one was merged never changes again |
| Rotations.AllMergedIff | internal/logparser/parser.go:459-509 | every line ever written is merged exactly when no generation has a complete line after the place where merging it ended |
| Rotations.RotationLosesTail | internal/logparser/parser.go:463-466 | a line that a rotated file still had to offer is missing for the rest of every run |
| WindowTheorems.ScrapeIsExact | internal/logparser/parser.go:332-367 | every scrape of every run with client lines in time order, whose own clock reading is the latest so far: connections = min(capacity, lines after the cutoff), users = number of distinct client addresses after the cutoff |
| WindowTheorems.AbsorbWindowed | internal/logparser/parser.go:545-557 | dropping old lines at ingestion is harmless to every later scrape |
| WindowTheorems.WindowedThroughout | internal/logparser/parser.go:545-557 | both window facts hold at every point of a run, for every cutoff not behind an earlier clock reading |
| WindowTheorems.KeepUserIff | internal/logparser/parser.go:557 | last-write-wins is right exactly unless an old line overwrites a recent one |
| DisorderTheorems.ReportedInAnyOrder | internal/logparser/parser.go:354-367 | every run, any order, any overflow: the window is what expiry leaves of the last cap recorded timestamps, and the count is right exactly when hidden stale and overwritten fresh entries cancel, or a full buffer is kept whole and more was overwritten |
| DisorderTheorems.ConnectionsInAnyOrder | internal/logparser/parser.go:354-367 | in particular without overflow: no fresh connection is missed, and the count is right exactly when nothing stale was recorded after something fresh |
| DisorderTheorems.UsersInAnyOrder | internal/logparser/parser.go:336-352 | for a log in any order: an address counts exactly when its last recorded line is after the cutoff; never one too many, and all exactly when no old line was recorded last |
| DisorderTheorems.OrderedConnectionsAreExact | internal/logparser/parser.go:354-367 | logs in time order: min(capacity, lines after the cutoff), also behind an earlier clock reading if no client line lies between the cutoffs |
| DisorderTheorems.OrderedUsersAreExact | internal/logparser/parser.go:336-352 | logs in time order: exactly the addresses with a line after the cutoff, under the same condition |
| DisorderTheorems.ConnectionsAtAnyClock | internal/logparser/parser.go:354-367 | any order, any clock: the report is right exactly when as many stale entries hide in the buffer as fresh lines are missing from it, or the whole capacity is reported and more is missing |
| DisorderTheorems.UsersAtAnyClock | internal/logparser/parser.go:336-352 | any order, any clock: never a user too many, and all of them exactly when the map still has each with a time after the cutoff |
| DisorderTheorems.TracksThroughout | internal/logparser/parser.go:192-204 | in every run, however often the buffer overflowed, the window is the latest recorded timestamps but for stale ones, and last-seen times are those of the last recorded lines |
| DisorderTheorems.FewClientsNeverOverflow | internal/logparser/parser.go:192-204 | a buffer with room for all client lines of the log never overflows |
| Miscounts.OutOfOrderMiscounts | internal/logparser/parser.go:354-364 | for every capacity a run from real log lines to a scrape that reports too many connections, or too few, and too few users |
| Miscounts.ClockBackForgets | internal/logparser/parser.go:336-364 | a run in which a scrape behind an earlier one reports nothing although a connection and a user are after its cutoff |
| IpFilter.List.Remove | internal/logparser/filter.go:123 | unlinking leaves a well-linked list of the others in their order |
| IpFilter.List.InsertFront | internal/logparser/filter.go:119 | linking at the front leaves a well-linked list |
| IpFilter.List.MoveToFront | internal/logparser/filter.go:103 | the element moves to the front and the others keep their order |
| IpFilter.List.Back | internal/logparser/filter.go:122 | the least recently used element |
| IpFilter.IPFilter.LookupCached | internal/logparser/filter.go:101-108 | first critical section: a hit answers truthfully and refreshes, a miss changes nothing; map and list stay in step |
| IpFilter.IPFilter.InsertResult | internal/logparser/filter.go:113-128 | second critical section: refresh or insert and evict the oldest; map and list stay in step and within the limit |
| IpFilter.IPFilter.PushNew | internal/logparser/filter.go:119 | a new entry goes to the front, mapped to its own element |
| IpFilter.IPFilter.EvictOldest | internal/logparser/filter.go:121-126 | the least recently used entry leaves list and map together |
| IpFilter.IPFilter.ShouldFilterInternal | internal/logparser/filter.go:135-160 | an address passes exactly if it is in neither exact set, parses, and lies in no private network |
| IpFilter.IPFilter.ShouldFilter | internal/logparser/filter.go:100-131 | the cached answer is the uncached one, for any cache state |
| IpFilter.IPFilter.CachedIffFound | internal/logparser/filter.go:102 | the map has an address exactly when the list does |
| IpFilter.IPFilter.TakeStep | internal/logparser/filter.go:100-131 | either critical section of any one call does to list, pending calls and answers what the interleaving model says |
| IpFilter.IPFilter.RunSchedule | internal/logparser/filter.go:100-131 | any schedule of the critical sections of concurrent calls on one filter: the list is the most recently used addresses, every answer is the uncached one: "passes" exactly for addresses in neither exact set, parsed and in no listed network |
| Recency.CacheIsMostRecent | internal/logparser/filter.go:100-131 | in every interleaving: the list is the first maxCacheSize addresses by most recent use, within the limit, and every answer is the uncached one |
| Recency.RecentIsByLastUse | internal/logparser/filter.go:15-21 | the ideal list has each used address once, ordered by its last use |
| Recency.ScheduleIsRun | internal/logparser/filter.go:100-131 | every schedule is a run of the interleaving model |
| Recency.TouchIsUse | internal/logparser/filter.go:114-127 | one refresh or insertion with eviction is one use on the ideal list |
| SnapshotStore.Store.constructor | internal/snapshot/store.go:20-40 | a loaded image comes up sorted and complete, whatever its order on disk |
| SnapshotStore.Store.Save | internal/snapshot/store.go:42-56 | contents become a sorted permutation of what retention keeps of old contents and the new snapshot, also when persisting fails; the disk image is replaced whole or not at all |
| SnapshotStore.Store.Append | internal/snapshot/store.go:45 | append keeps everything, in the old or a larger backing array |
| SnapshotStore.Store.Compact | internal/snapshot/store.go:46-53 | compacting over the aliased slice yields exactly the retained items: nothing unread is overwritten |
| SnapshotStore.Store.SortItems | internal/snapshot/store.go:141-143 | sorted by time, nothing added or lost |
| SnapshotStore.Store.Latest | internal/snapshot/store.go:58-65 | a snapshot no other is later than, or none if the store is empty |
| SnapshotStore.Store.Window | internal/snapshot/store.go:67-105 | the two loops compute the page: first `limit` eligible items, and more only if something later is left |
| SnapshotStore.Store.Collect | internal/snapshot/store.go:73-84 | the first loop stops at the limit without skipping an eligible item |
| SnapshotStore.Store.AnyLater | internal/snapshot/store.go:85-99 | the second loop finds a later eligible item exactly if there is one |
| Retention.RetentionExact | internal/snapshot/store.go:42-56 | after any saves, backward clock steps included, the store is a sorted permutation of exactly the snapshots no same-or-later save outdates |
| Retention.SaveAll | internal/snapshot/store.go:42-56 | any sequence of saves on one store goes through a run, and leaves exactly the snapshots no same-or-later save outdates |
| Retention.StaysThrough | internal/snapshot/store.go:46-52 | a stored snapshot not outdated by any save in between is still stored |
| Pagination.ClampLimit | internal/snapshot/http.go:50-53 | a limit in 1..1000 is honoured, any other becomes a limit in that range |
| Pagination.PageSize | internal/snapshot/http.go:50-53 | a limit outside 1 to 1000 means 1000: up to 1000 eligible snapshots come back whole without HasMore, of more the first 1000; any other page has the first min(limit, n), headed by its first snapshot's node and environment |
| Pagination.EligibleCounts | internal/snapshot/store.go:73-78 | each snapshot is eligible as often as it is stored, if it is in the range and after the cursor, and not otherwise |
| Pagination.PageSplitsEligible | internal/snapshot/store.go:73-99 | each eligible snapshot is on the page, cut off by a tie at its end, or announced by HasMore and ahead of the cursor |
| Pagination.DeliveryStrictlyAdvances | internal/snapshot/http.go:46-63 | with saves between requests and any ranges, later pages carry strictly later timestamps, so nothing is delivered twice |
| Pagination.DeliveredIff | internal/snapshot/store.go:67-105 | any session with saves in between and a range of its own per request: a snapshot is delivered exactly when the deciding request finds it in store and range and the page does not end on its timestamp without it |
| Pagination.MovingRangeMisses | internal/snapshot/http.go:48-49 | a session whose second range has moved on misses a snapshot that stayed in the store, without any tie |
| Pagination.CompleteUpToTies | internal/snapshot/store.go:67-105 | what stays in the store and in the ranges is delivered by the page with HasMore false, or was cut off by a tie |
| Pagination.MissedIffCutOff | internal/snapshot/store.go:67-105 | with saves in between, what stays in the store and in the ranges is missed exactly when some page ends on its timestamp without it |
| Pagination.CompleteWhenDistinct | internal/snapshot/store.go:67-105 | with distinct timestamps it is delivered |
| Pagination.CompleteUnderSaves | internal/snapshot/store.go:42-105 | the same told from the saves: a snapshot that no save up to the last request outdates is delivered |
| QuietPages.PagesRebuildRange | internal/snapshot/store.go:73-99 | on a quiet store the pages and their losses are the sorted range, and everything lost ties with the end of its page |
| QuietPages.DeliversAllIff | internal/snapshot/store.go:73-99 | the pages are exactly the range if and only if no cut into runs of the limit goes through a tie; then their number is the least possible |
| QuietPages.DistinctPagesAreTheRange | internal/snapshot/store.go:73-99 | in particular with distinct timestamps |
| QuietPages.TieLosesOne | internal/snapshot/store.go:79-99 | two snapshots at one time, limit 1: one is lost and HasMore is false |
| QuietPages.QuietIsPaging | internal/snapshot/http.go:46-63 | following cursors on a quiet store is a session in the sense of the theorems on concurrent saves |
| QuietPages.MissedIffCutOff | internal/snapshot/store.go:73-99 | a snapshot in range is undelivered exactly when some page ends on its timestamp without it |
| QuietPages.PagesNeededIsCeil | internal/snapshot/http.go:50-61 | that number is max(1, ceil(n / limit)) |
| QuietPages.SessionEndsIff | internal/snapshot/http.go:54-60 | following NextCursor ends exactly when no page that promises more ends on the zero time, which range and limit decide |
| QuietPages.StartsOverIff | internal/snapshot/http.go:54-60 | from any page, the cursor leads back to the first page exactly when the page ends on the zero time |
| QuietPages.ZeroTimeTraps | internal/snapshot/http.go:54-60 | two snapshots, the first at the zero time, limit 1: every page is the first |
| Billing.BuildIndex | internal/snapshot/identities.go:59-70 | under every key of every identity stands the last identity that claims it |
| Billing.ClaimIsHeld | internal/snapshot/identities.go:64-68 | no identity served is missing under any of its keys |
| Billing.HolderIsServed | internal/snapshot/identities.go:60-68 | no entry is invented |
| Billing.ResolvedNeverMixes | internal/snapshot/service.go:60-87 | no UUID collects both counters that matched an identity and counters that did not |
| Billing.EmailProofIff | internal/snapshot/service.go:61-75 | the exact condition on the index under which no UUID can contain "@" |
| Billing.UuidsKeepEmailsOut | internal/snapshot/service.go:66-73 | it holds when every identity has a UUID free of "@" |
| Billing.EmailOnlyIdentityLeaks | internal/snapshot/service.go:66-73 | it fails for an identity known only by its email |
| Normalize.ResolveCounter | internal/snapshot/service.go:56-78 | the lookup's branches compute the account the theorems speak of |
| Normalize.Accumulate | internal/snapshot/service.go:79-93 | one counter changes the figures of its own account and no other |
| Normalize.AddAmount | internal/snapshot/service.go:88-93 | the amount goes to its direction only, with int64 wrap-around |
| Normalize.NormalizeCounters | internal/snapshot/service.go:49-106 | samples ascend strictly by UUID, one per billed account, totals exact modulo 2^64, no inbound dimension |
| Normalize.OrderIsIrrelevant | internal/snapshot/service.go:49-106 | permuting the counters changes neither UUIDs nor totals, and no email if the identities agree |
| Normalize.TrafficConserved | internal/snapshot/service.go:88-104 | per direction the samples add up to all kept counters, modulo 2^64 always and exactly when totals fit an int64 |
| Normalize.SamplesNeverMix | internal/snapshot/service.go:55-93 | no sample combines matched and unmatched counters, an email only stands on matched traffic, and with a safe index no sample UUID contains "@" |
| Normalize.WrapIsModular | internal/snapshot/service.go:90-92 | the wrap-around used is two's complement |
| Accounts.WhereItGoes | internal/snapshot/service.go:55-78 | the payload's last claimer of a counter's name decides: its account UUID, else its proxy UUID, else the name; unclaimed names stand for themselves unless they contain "@"; blank ones go nowhere |
| Accounts.GoesIffBills | internal/snapshot/identities.go:59-70 | looking names up in the index is looking for the last claimer in the payload |
| Accounts.SamplesFollowPayload | internal/snapshot/service.go:49-106 | there is a sample for a UUID exactly if some counter goes there, and its "uplink" and "downlink" are the wrapped sums of the counters that do |
| Accounts.EmailOfFirst | internal/snapshot/service.go:67-87 | a sample's email is the trimmed lower-case one of the identity that claims its first counter, and empty if none does |
| Accounts.AccountCollects | internal/snapshot/service.go:69-81 | a counter claimed by any identity of an account goes to the account and nowhere else |
| Accounts.OneAccountOneSample | internal/snapshot/service.go:79-93 | counters of all proxies of one account are one sample with everything they show |
| Words.AscendingIsUnique | internal/snapshot/service.go:95-101 | there is one ascending order for a set of UUIDs |
| Words.LexIsFirstDifference | internal/snapshot/service.go:95-98 | the order is byte order: the first difference decides and a proper prefix comes first |
| Words.TrimSpaceCuts | internal/snapshot/service.go:57 | trimming cuts white space and nothing else, at both ends and all of it |
| Words.AsciiSpaces | internal/snapshot/service.go:57 | which ASCII characters count as white space, by number |

## Left out

- gRPC calls, Prometheus plumbing, HTTP server, flags, logging, the pusher and bearer tokens: input and output around the core.
- `net.ParseIP`, regular expressions, GeoIP databases and the public suffix list (with its two-label fallback): function parameters.
- `callWithRetry`, `NewParser`'s buffer-size switch and `parseTime`: one branch each; the capacity is any positive number.
- `NewIPFilter`'s literal address lists: the rules are arbitrary.
- Log counts are unbounded integers: an int64 counter fed one line at a time does not wrap in practice. Billing sums do wrap in the model.
- `cloneSnapshot` and `maps.Clone`: snapshots and maps are values here, so copies cannot be disturbed and the model says nothing on sharing.
- RFC 3339 formatting (section 5.6 of RFC 3339) and JSON: the cursor and the disk image are taken to survive the round trip, the zero time excepted.
- The file system steps of `persistLocked`: the image is replaced or it is not.
- `strings.ToLower` is an arbitrary rune table; only `EmailProofIff` and what follows from it use that it is idempotent and keeps "@" and white space apart.
- `sync` primitives: critical sections are atomic steps, so deadlock and data races are not part of this model.
- AccessLine.Foreign: its `filtered` is a function in the parser's runs; that each call also moves a cache entry is modelled in `IpFilter` and `Recency` only.
- LogSystem.ExactlyOnceThroughout: assumes file identities that are not 0 and stay the same while a file lives, as `getInode` gives them; its modification-time fallback on some Windows file systems would read a file again.
