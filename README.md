# Data-center manager: address pools, rack placement and capacity roll-ups

This project models the algorithmic core of a small data-center management web
application (Next.js over a Supabase database) and proves what it does:

- **IPv4 pools** (`lib/actions/ip-management.ts`).
  - `calculateIPRange` turns a dotted-quad network address and a CIDR prefix into the
    list of host addresses. It works with JavaScript's 32-bit shifts and marks the
    gateway `reserved`.
  - `generateIPAddresses` inserts that list in batches of 100.
  - Assign, release, reserve and bulk status updates rewrite one address row, and
    assign and release append to a change log.
  - DNS servers are parsed from a comma-separated form field.
  - The tables are a class `IpStore` holding a map of pools, a map of address
    records, the change log and an id counter.
- **IP actions menu** (`components/ip-management/ip-actions.tsx`). The status-gated
  dropdown menu, and the component state of the reserve dialog as a class.
- **Rack placement** (`lib/actions/rack-management.ts`,
  `components/rack-management/interactive-rack.tsx`).
  - The server's fit test and overlap scan in `moveAssetToRack`, and the writes of the
    move, `removeAssetFromRack`, `createRack` and `deleteRack`, on a class `Inventory`.
  - The sorted asset list of the rack view, the top-down unit map, and the nested
    loop of `getAvailablePositions`.
  - Every position the client offers is accepted by the server.
- **Roll-ups**.
  - The racks page's used, total and available units, its utilisation colour,
    header cards and per-data-center capacity.
  - The IP page's status counts and header totals.
  - The data-centers page's statistics and badge.
  - The floor plan's `createGrid` on a two-dimensional array, and its cell colour.

The JavaScript the code relies on is modelled explicitly:
- `Number.parseInt` skips leading whitespace, an optional sign and an optional `0x`, then reads the longest run of digits; NaN is `None`.
- `split`, `join` and `trim` are written out.
- `<<` is a signed 32-bit shift; `>>>` and `& 255` are 32-bit wrap-around.
- `Math.round` is exact rounding half up.
- `Array.prototype.sort` is a stable insertion sort.
- `find`, `some`, `filter` and `reduce` are modelled directly.
- Supabase's `.single()` yields a row only when exactly one row matches.

The database, the clock (`new Date().toISOString()`) and record ids are parameters or
counters. Modules follow the source files: `Ipv4`, `IpManagement`, `IpActions`,
`IpManagementPage`, `RackManagement`, `InteractiveRack`, `RacksPage`,
`DataCentersPage` and `FloorPlan`. They share the helper modules `Common`, `Seqs`
and `JsStrings`.

## Model

| member | source | states |
|---|---|---|
| Common.RoundDiv | app/dashboard/racks/page.tsx:35 | `Math.round(n / d)`: the result is the integer nearest the exact quotient, halves rounded up |
| Common.PercentBounds | app/dashboard/racks/page.tsx:35 | a part between 0 and a positive whole rounds to a percentage in [0, 100] |
| Common.PercentOfNothing | app/dashboard/ip-management/page.tsx:49 | 0 of a positive whole is 0% |
| Common.RoundedAverageBounds | app/dashboard/racks/page.tsx:142-144 | the rounded mean of values in [0, 100] lies in [0, 100] |
| Seqs.Filter | app/dashboard/racks/page.tsx:32 | `filter` keeps exactly the elements that satisfy the predicate, never more than the input |
| Seqs.Single | lib/actions/rack-management.ts:43 | `.single()` yields a row exactly when one row matches, and that row is the match |
| Seqs.FilterEmpty | lib/actions/rack-management.ts:89-93 | a filter is empty exactly when no element satisfies the predicate |
| Seqs.FilterAppend | app/dashboard/racks/page.tsx:297 | filtering a concatenation concatenates the filtered parts |
| Seqs.SumAppend | app/dashboard/racks/page.tsx:130 | a `reduce` sum over a concatenation is the sum of the two sums |
| Seqs.SumBounds | app/dashboard/racks/page.tsx:143 | bounds on every term bound the sum by count times bound |
| Seqs.Average | app/dashboard/racks/page.tsx:142-144 | an average card shows 0 when there is nothing to average |
| Seqs.AverageBounds | app/dashboard/data-centers/page.tsx:104-109 | the rounded mean of percentages is a percentage |
| Seqs.SortBy | components/rack-management/interactive-rack.tsx:51 | sorting is a permutation of the input |
| Seqs.InsertSorted | components/rack-management/interactive-rack.tsx:51 | inserting into a sorted list keeps it sorted under a total preorder |
| Seqs.SortBySorted | components/rack-management/interactive-rack.tsx:51 | the sort returns a sorted permutation of its input for any total-preorder comparator |
| Seqs.LexTotal | lib/actions/rack-management.ts:246 | code-point order of names is total |
| Seqs.LexTransitive | lib/actions/rack-management.ts:246 | code-point order of names is transitive |
| JsStrings.TrimStartSpec | lib/actions/ip-management.ts:22 | the removed prefix is all whitespace and the rest starts with a non-space |
| JsStrings.TrimEndSpec | lib/actions/ip-management.ts:22 | the removed suffix is all whitespace and the rest ends with a non-space |
| JsStrings.Trim | lib/actions/ip-management.ts:22 | `trim()` is empty exactly for all-whitespace input, has no outer whitespace, and uses only input characters |
| JsStrings.TrimOfTrimmed | lib/actions/ip-management.ts:22 | trimming a trimmed string changes nothing |
| JsStrings.Split | lib/actions/ip-management.ts:21 | `split` yields at least one field, none holding the separator, and the whole string when the separator is absent |
| JsStrings.JoinSplit | lib/actions/ip-management.ts:21 | joining the fields of a split gives back the string |
| JsStrings.SplitJoin | lib/actions/ip-management.ts:225 | splitting a join of separator-free fields gives back the fields |
| JsStrings.Decimal | lib/actions/ip-management.ts:225 | a number's decimal text is non-empty digits with no leading zero and denotes that number |
| JsStrings.DecimalOfValue | lib/actions/ip-management.ts:225 | a canonical numeral is the decimal text of its own value |
| JsStrings.DigitRunLength | lib/actions/ip-management.ts:33 | `parseInt` reads the longest prefix of digits |
| JsStrings.ParseIntDecimal | lib/actions/ip-management.ts:33 | `parseInt` reads back the decimal text of any natural number |
| JsStrings.ParseIntNoDigits | components/rack-management/floor-plan-editor.tsx:61-62 | text holding no digit parses to NaN |
| Ipv4.Octets | lib/actions/ip-management.ts:214 | `split(".").map(Number)` of a dotted quad gives four octets in 0..255 |
| Ipv4.ToOctets | lib/actions/ip-management.ts:225 | the four `>>> k & 255` fields of an address lie in 0..255 |
| Ipv4.FromToOctets | lib/actions/ip-management.ts:225 | reassembling an address's four octets gives the address |
| Ipv4.ToFromOctets | lib/actions/ip-management.ts:215 | the octets of an assembled address are the ones it was built from |
| Ipv4.ParseFormat | lib/actions/ip-management.ts:225 | a formatted address is a canonical dotted quad that parses back to the address |
| Ipv4.SplitFormat | lib/actions/ip-management.ts:225 | splitting a formatted address on dots gives its four decimal octets |
| Ipv4.FormatParse | lib/actions/ip-management.ts:214-215 | format after parse is the identity on canonical dotted quads |
| Ipv4.FormatInjective | lib/actions/ip-management.ts:225 | distinct addresses format to distinct strings |
| Ipv4.FormatNonEmpty | lib/actions/ip-management.ts:225 | a formatted address is never the empty string |
| Ipv4.ToInt32 | lib/actions/ip-management.ts:215 | a JavaScript int32 result lies in the signed range and agrees with the exact value modulo 2^32 |
| Ipv4.JsNetworkNumberValue | lib/actions/ip-management.ts:215 | the shifted network number equals the unsigned address when the first octet is below 128, and is 2^32 less (negative) otherwise |
| Ipv4.JsNetworkNumberWraps | lib/actions/ip-management.ts:224-225 | whatever the sign, the formatted host `networkNum + i` is the address (N + i) mod 2^32 |
| IpManagement.LoopLimit | lib/actions/ip-management.ts:218-222 | the loop `1 <= i < totalHosts - 1` runs 2^(32-p) - 2 times for p <= 30, and zero times otherwise |
| IpManagement.CalculateIPRange | lib/actions/ip-management.ts:210-233 | the loop returns the address range: entry k is address (N + k + 1) mod 2^32, reserved exactly when it equals the gateway |
| IpManagement.RangeLength | lib/actions/ip-management.ts:218-222 | 2^(32-p) - 2 entries for p <= 30, none for /31 and /32, and fewer than 2^32 - 1 for every p >= 0 |
| IpManagement.NegativePrefixRepeats | lib/actions/ip-management.ts:218-222 | a prefix of -1 is not refused: the loop emits 2^33 - 2 entries and entry 2^32 repeats entry 0 |
| IpManagement.RangeDistinct | lib/actions/ip-management.ts:222-225 | the generated addresses are pairwise distinct |
| IpManagement.RangeExcludesNetwork | lib/actions/ip-management.ts:214-225 | no entry is the (unmasked) network address N |
| IpManagement.RangeExcludesBroadcast | lib/actions/ip-management.ts:214-225 | no entry is N + 2^(32-p) - 1 |
| IpManagement.AtMostOneReserved | lib/actions/ip-management.ts:228 | at most one entry is reserved, and it carries the gateway's address |
| IpManagement.NoGatewayNoneReserved | lib/actions/ip-management.ts:228 | with no well-formed gateway, every entry is available |
| IpManagement.SlashThirty | lib/actions/ip-management.ts:218-229 | a /30 whose gateway is the first host yields the gateway reserved and the next host available |
| IpManagement.RangeOfTwo | lib/actions/ip-management.ts:218-225 | a /30 yields exactly the hosts at offsets 1 and 2 |
| IpManagement.RowsFor | lib/actions/ip-management.ts:200-204 | each inserted row carries the pool id, address and status of its entry, in order |
| IpManagement.GenerateIPAddresses | lib/actions/ip-management.ts:191-208 | the batches concatenate to the rows of the whole range in order; each holds 1 to 100 rows, all but the last exactly 100, all with the pool id |
| IpManagement.BatchStep | lib/actions/ip-management.ts:199-206 | one more slice of at most 100 extends the batch cover by that slice |
| IpManagement.CleanFieldsSpec | lib/actions/ip-management.ts:21-23 | every kept DNS field is non-empty and trimmed, and comma-free when the fields came from a comma split |
| IpManagement.CleanFieldsOfClean | lib/actions/ip-management.ts:22-23 | a list of non-empty trimmed fields passes through unchanged |
| IpManagement.CleanFieldsEmpty | lib/actions/ip-management.ts:23 | nothing is kept exactly when every field is blank |
| IpManagement.ParseDnsServers | lib/actions/ip-management.ts:19-24 | a stored DNS list is non-empty and its entries are non-empty, trimmed and comma-free |
| IpManagement.DnsRoundTrip | lib/actions/ip-management.ts:19-24 | parsing the comma-join of a clean server list gives the list back |
| IpManagement.DnsNullIffBlank | lib/actions/ip-management.ts:19-24 | DNS is stored as null exactly when every comma-separated field is blank |
| IpManagement.AssignedRecord | lib/actions/ip-management.ts:95-103 | assign sets status assigned and the date, nulls an empty asset id or hostname, and keeps pool, address and notes |
| IpManagement.ReleasedRecord | lib/actions/ip-management.ts:128-136 | release sets status available, clears asset, hostname and date, and keeps pool, address and notes |
| IpManagement.ReservedRecord | lib/actions/ip-management.ts:161-167 | reserve changes only status (to reserved) and notes (to the reason) |
| IpManagement.BulkUpdatedRecord | lib/actions/ip-management.ts:179-182 | bulk update sets the status and overwrites notes only when a reason is given; nothing else changes |
| IpManagement.ReleaseForgetsAssignment | lib/actions/ip-management.ts:128-136 | assign then release leaves the same record as release alone, whatever the assign arguments were |
| IpManagement.NewRecordsDomain | lib/actions/ip-management.ts:206 | inserted rows take exactly the ids start .. start + count - 1 |
| IpManagement.NewRecordsAt | lib/actions/ip-management.ts:206 | id start + i holds the record of row i |
| IpManagement.NewRecordsAppend | lib/actions/ip-management.ts:199-206 | inserting a list, then another after it, equals inserting their concatenation |
| IpManagement.InsertStep | lib/actions/ip-management.ts:199-207 | inserting batch j after the earlier batches extends the inserted records by exactly that batch |
| IpManagement.IpStore.AssignIPAddress | lib/actions/ip-management.ts:88-123 | the one record is rewritten by assign whatever its status, one assign entry is appended to the log, and pools and ids are unchanged |
| IpManagement.IpStore.ReleaseIPAddress | lib/actions/ip-management.ts:125-156 | the one record is rewritten by release, one release entry is appended to the log, and nothing else changes |
| IpManagement.IpStore.ReserveIPAddress | lib/actions/ip-management.ts:158-174 | the one record is rewritten by reserve, and the log is unchanged |
| IpManagement.IpStore.BulkUpdateIPStatus | lib/actions/ip-management.ts:176-189 | every listed id is rewritten and every other id is untouched; the key set and the log are unchanged |
| IpManagement.IpStore.InsertRows | lib/actions/ip-management.ts:206 | an insert adds one record per row under fresh consecutive ids and changes nothing else |
| IpManagement.IpStore.InsertBatches | lib/actions/ip-management.ts:199-207 | inserting the batches one by one adds the records of their concatenation |
| IpManagement.IpStore.InsertPool | lib/actions/ip-management.ts:27-39 | a pool is stored under a fresh id, and records and log are unchanged |
| IpManagement.IpStore.CreateIPPool | lib/actions/ip-management.ts:7-50 | the pool is stored first, then one record per generated address follows under consecutive ids |
| IpManagement.IpStore.UpdateIPPool | lib/actions/ip-management.ts:52-86 | only the named pool's fields change, and no address record does; an unknown id changes nothing |
| IpActions.StatusTextRoundTrip | lib/actions/ip-management.ts:179-182 | a stored status reads back as itself |
| IpActions.StatusFromStringStored | lib/actions/ip-management.ts:179-182 | any status text reads as a stored status that writes back to the same text |
| IpActions.MenuItems | components/ip-management/ip-actions.tsx:90-109 | Release only for assigned, Reserve only for available, Make Available only for reserved, at most one item, and none for blocked or any other status |
| IpActions.MenuTransitions | components/ip-management/ip-actions.tsx:91-108 | the offered action takes assigned and reserved to available and available to reserved; blocked rows have no action |
| IpActions.IpActionsView.OpenReserveDialog | components/ip-management/ip-actions.tsx:98 | the Reserve item opens the dialog and keeps the reason |
| IpActions.IpActionsView.EditReason | components/ip-management/ip-actions.tsx:125 | typing replaces the reason, and nothing else |
| IpActions.IpActionsView.CancelReserve | components/ip-management/ip-actions.tsx:131 | Cancel closes the dialog and keeps the typed reason |
| IpActions.IpActionsView.HandleRelease | components/ip-management/ip-actions.tsx:31-42 | the store performs a release of this address, and the loading flag ends false |
| IpActions.IpActionsView.HandleReserve | components/ip-management/ip-actions.tsx:44-62 | a blank or whitespace reason changes nothing; otherwise the untrimmed reason is reserved, the dialog closes and the reason resets |
| IpManagementPage.CountsPartition | app/dashboard/ip-management/page.tsx:38-40 | assigned, available, reserved and uncounted rows add up to all rows |
| IpManagementPage.StatsSpec | app/dashboard/ip-management/page.tsx:35-52 | total is the row count; the three counts never exceed it and blocked rows make up the difference; utilisation is 0 for an empty pool and in [0, 100] |
| IpManagementPage.HeaderTotalsSpec | app/dashboard/ip-management/page.tsx:119-143 | the header totals are the per-pool sums of total, assigned and available, and assigned plus available never exceeds total |
| IpManagementPage.StatsOfUnassigned | app/dashboard/ip-management/page.tsx:38-49 | a pool with nothing assigned shows 0% and available plus reserved equal to total |
| IpManagementPage.FreshStatuses | lib/actions/ip-management.ts:228 | a freshly generated address is available or reserved |
| IpManagementPage.FreshReservedAtMostOne | lib/actions/ip-management.ts:228 | a fresh pool holds at most one reserved address |
| IpManagementPage.FreshPoolStats | app/dashboard/ip-management/page.tsx:35-52 | a fresh pool shows 0 assigned and 0%, total 2^(32-p) - 2 for p <= 30, at most one reserved, and none without a gateway |
| RackManagement.ConflictsIffIntersect | lib/actions/rack-management.ts:167-171 | for spans of height at least one, the three-way test is exactly interval intersection |
| RackManagement.ConflictsWithEmptySpan | lib/actions/rack-management.ts:167-171 | for a negative height, whose span is empty, the test still reports a conflict that intersection would not |
| RackManagement.FirstConflict | lib/actions/rack-management.ts:161-174 | the scan stops at the first conflicting asset in order, and finds none exactly when no asset conflicts |
| RackManagement.AssetByIdOfUnique | lib/actions/rack-management.ts:134 | with unique ids, an asset's own id looks it up |
| RackManagement.AfterMove | lib/actions/rack-management.ts:178-184 | only the moved asset's rack and position change |
| RackManagement.AfterRemove | lib/actions/rack-management.ts:205-211 | only the named asset loses its rack and position |
| RackManagement.MoveLookupsFirst | lib/actions/rack-management.ts:134-145 | a missing asset, then a missing rack, is reported before any placement check |
| RackManagement.MoveFitTest | lib/actions/rack-management.ts:148-151 | "doesn't fit" exactly when the last unit lies above the rack's height; there is no lower bound |
| RackManagement.MoveSucceedsIff | lib/actions/rack-management.ts:134-175 | a move succeeds exactly when both are found, the asset fits, and no other asset of the rack conflicts |
| RackManagement.MovedSpanIsFree | lib/actions/rack-management.ts:177-184 | after a move, the moved asset's span overlaps no other asset in that rack |
| RackManagement.CreateKeepsPositionsUnique | lib/actions/rack-management.ts:37-49 | an insert that passes the position guard keeps positions unique |
| RackManagement.OccupiedPositionIsTaken | lib/actions/rack-management.ts:37-47 | when positions are unique, an occupied position is refused |
| RackManagement.DuplicatePositionNotGuarded | lib/actions/rack-management.ts:37-47 | once two racks share a position, `.single()` finds no row and the guard lets a third in |
| RackManagement.MoveKeepsRefs | lib/actions/rack-management.ts:177-184 | a successful move keeps every asset's rack reference valid |
| RackManagement.RemoveKeepsRefs | lib/actions/rack-management.ts:205-211 | removal keeps every rack reference valid |
| RackManagement.DeleteKeepsRefs | lib/actions/rack-management.ts:89-95 | deleting a rack that the guard allows leaves no dangling reference |
| RackManagement.CreateKeepsRefs | lib/actions/rack-management.ts:49 | adding a rack keeps references valid |
| RackManagement.ByNameIsTotalPreorder | lib/actions/rack-management.ts:246 | ordering by name is a total preorder |
| RackManagement.AvailableAssetsSpec | lib/actions/rack-management.ts:244-246 | the available assets are exactly the unracked active ones, as a permutation of the filter, sorted by name |
| RackManagement.Inventory.MoveAssetToRack | lib/actions/rack-management.ts:129-199 | the result is the move outcome; only a successful move writes, and only that asset |
| RackManagement.Inventory.RemoveAssetFromRack | lib/actions/rack-management.ts:201-225 | the asset list becomes the one with that asset unracked; racks are unchanged |
| RackManagement.Inventory.CreateRack | lib/actions/rack-management.ts:32-62 | the rack is created exactly when its position is not taken, and then appended |
| RackManagement.Inventory.DeleteRack | lib/actions/rack-management.ts:84-108 | the rack is deleted exactly when no asset references it |
| RackManagement.CheckMove | lib/actions/rack-management.ts:133-175 | the lookups, fit test and scan return the move outcome |
| RackManagement.ScanForConflict | lib/actions/rack-management.ts:160-175 | the early-returning loop reports the first conflicting asset's name, or success |
| RackManagement.FindConflict | lib/actions/rack-management.ts:161-174 | the loop returns the index of the first conflict |
| RackManagement.MoveOutcomeOfScan | lib/actions/rack-management.ts:148-175 | once lookups and fit pass, the outcome is the scan's verdict over the other assets in the rack |
| RackManagement.FirstConflictAt | lib/actions/rack-management.ts:161-172 | a conflict preceded by none is the one reported |
| InteractiveRack.ByPositionIsTotalPreorder | components/rack-management/interactive-rack.tsx:51 | ordering by position, with null as 0, is a total preorder |
| InteractiveRack.SortedAssetsSpec | components/rack-management/interactive-rack.tsx:51 | the sorted assets are a permutation of the rack's assets, sorted by position |
| InteractiveRack.FirstCovering | components/rack-management/interactive-rack.tsx:56-60 | `find` returns the first asset whose span covers the unit, and nothing exactly when none does |
| InteractiveRack.RackUnitsTopDown | components/rack-management/interactive-rack.tsx:54-55 | there is one entry per unit, numbered height down to 1, strictly decreasing |
| InteractiveRack.RackUnitsShow | components/rack-management/interactive-rack.tsx:54-66 | a unit shows the first covering asset in position order; it is empty exactly when no asset covers it, and a start exactly at that asset's position |
| InteractiveRack.UnitAtSpec | components/rack-management/interactive-rack.tsx:56-66 | one unit's view, stated against any list holding the same assets |
| InteractiveRack.RackUnitsOfDisjoint | components/rack-management/interactive-rack.tsx:54-66 | when spans are disjoint, every unit an asset covers shows that asset, and its start unit is marked |
| InteractiveRack.FindById | components/rack-management/interactive-rack.tsx:167 | the lookup finds an asset with that id, and nothing exactly when none has it |
| InteractiveRack.GetAvailablePositions | components/rack-management/interactive-rack.tsx:166-193 | no selection gives []; otherwise positions are strictly increasing and are exactly the p in [1, height - h + 1] whose span is free |
| InteractiveRack.OfferedPositionsAcceptedByServer | components/rack-management/interactive-rack.tsx:173-186 | with non-negative heights, every offered position passes the server's lookups, fit test and overlap scan |
| InteractiveRack.AvailableAssetFound | components/rack-management/interactive-rack.tsx:167 | an asset chosen from the available list is the one the server looks up |
| InteractiveRack.FreeSpanHasNoConflict | components/rack-management/interactive-rack.tsx:174-186 | a span the client finds free raises no conflict with any placed asset |
| InteractiveRack.NegativeHeightOfferRefused | components/rack-management/interactive-rack.tsx:170-186 | an asset of negative height can be offered a position that the server refuses as a conflict |
| RacksPage.TotalUnits | app/dashboard/racks/page.tsx:34 | a rack's size is never zero: its height, or 42 when the height is missing |
| RacksPage.UsedUnitsAppend | app/dashboard/racks/page.tsx:31-33 | an asset adds its height (default 1) to the used units, and adds nothing when decommissioned |
| RacksPage.UsedUnitsAtLeastCount | app/dashboard/racks/page.tsx:31-33 | with non-negative heights, every asset in service uses at least one unit |
| RacksPage.StatsSpec | app/dashboard/racks/page.tsx:29-47 | used plus available is the total, available is negative exactly when overfilled, all assets are counted, and the utilisation is in [0, 100] when the assets fit |
| RacksPage.ColorOf | app/dashboard/racks/page.tsx:64-68 | red exactly at 90 and above, yellow exactly at 70 to 89, green below 70 |
| RacksPage.ColorMonotone | app/dashboard/racks/page.tsx:64-68 | a fuller rack never gets a milder colour |
| RacksPage.AllUnitsAppend | app/dashboard/racks/page.tsx:130 | the "Total Units" card grows by exactly each further rack's total units |
| RacksPage.AllUnitsAtLeastCount | app/dashboard/racks/page.tsx:130 | with no negative heights, the "Total Units" card is at least the number of racks |
| RacksPage.AverageUtilizationBounds | app/dashboard/racks/page.tsx:142-144 | when every rack's assets fit, the average lies in [0, 100] |
| RacksPage.DcCapacity | app/dashboard/racks/page.tsx:297-300 | a data center with no units shows 0% |
| RacksPage.DcCapacityAppend | app/dashboard/racks/page.tsx:297-300 | a rack adds to its own data center's rack count and units, and to no other's |
| RacksPage.OverfilledRackIsReachable | lib/actions/rack-management.ts:148-151 | an accepted move to unit 0 makes a one-unit rack report two units used and -1 available |
| DataCentersPage.TallyIsLength | app/dashboard/data-centers/page.tsx:33 | counting one per asset gives the number of assets |
| DataCentersPage.StatsSpec | app/dashboard/data-centers/page.tsx:26-47 | used units equal total assets, utilisation is 0 without units, and in [0, 100] when the assets do not outnumber the units |
| DataCentersPage.UsedUnitsMatchRacksPage | app/dashboard/data-centers/page.tsx:31-34 | the two pages' used units agree when every asset is in service and one unit high |
| DataCentersPage.BadgeOf | app/dashboard/data-centers/page.tsx:129 | destructive above 80, secondary in 61 to 80, default at 60 and below |
| DataCentersPage.BadgeMonotone | app/dashboard/data-centers/page.tsx:129 | a fuller data center never gets a milder badge |
| DataCentersPage.AverageUtilizationBounds | app/dashboard/data-centers/page.tsx:104-109 | when no data center has more assets than units, the average lies in [0, 100] |
| FloorPlan.GridTarget | components/rack-management/floor-plan-editor.tsx:61-63 | a rack is aimed only at a cell inside the grid |
| FloorPlan.GridTargetOfDecimal | components/rack-management/floor-plan-editor.tsx:61-64 | decimal positions r, c go to cell (r - 1, c - 1) when inside the grid, and nowhere otherwise |
| FloorPlan.GridTargetOfParsed | components/rack-management/floor-plan-editor.tsx:61-64 | the same, for any text that parses to r and c |
| FloorPlan.GridTargetOfNonNumeric | components/rack-management/floor-plan-editor.tsx:61-64 | a row position without digits (NaN) places the rack nowhere |
| FloorPlan.CellOfSpec | components/rack-management/floor-plan-editor.tsx:60-66 | a cell is null exactly when no rack is aimed at it; otherwise it holds the last rack aimed at it |
| FloorPlan.OccupiedCellsBound | components/rack-management/floor-plan-editor.tsx:60-66 | no more cells are occupied than racks were placed |
| FloorPlan.GridShowsSelectedDataCenter | components/rack-management/floor-plan-editor.tsx:52 | every rack on the grid belongs to the selected data center |
| FloorPlan.CreateGrid | components/rack-management/floor-plan-editor.tsx:55-69 | a fresh rows x cols array where each cell holds the last rack aimed at it, or null |
| FloorPlan.PlaceAll | components/rack-management/floor-plan-editor.tsx:60-66 | writing racks in order into a null grid leaves each cell holding the last rack aimed at it |
| FloorPlan.GetRackColor | components/rack-management/floor-plan-editor.tsx:73-81 | empty for null, red at 90 and above, yellow at 70 to 89, blue above 0, green at 0 or below |
| FloorPlan.CellColorAgreesWithList | components/rack-management/floor-plan-editor.tsx:73-81 | the cell colour agrees with the rack list at red and yellow, and splits its green into blue and green |

## Left out

- Database calls, `revalidatePath`, `redirect`, toasts and React rendering are foreign framework code. Tables are in-memory maps and sequences, and a failed query is not modelled.
- The source checks and then writes with no atomic guard (`moveAssetToRack`, `createRack`). The model runs sequentially, so interleavings are not modelled.
- Pool creation is not atomic in the source: the pool is inserted before its addresses. Batch insert errors are ignored. The model shows the all-success path only.
- `scanNetwork` returns hard-coded mock results; it is not part of this model.
- The monitoring, customers, projects, assets and form pages are not part of this model. Neither are the sidebar and layout.
- `Math.round` of a float quotient is modelled as exact rounding half up. An IEEE quotient that lands a hair off an exact .5 can round the other way.
- IpManagement.CalculateIPRange: requires a dotted quad of four octets in 0..255. JavaScript turns a non-numeric octet into 0 and carries an octet above 255 into the next one; neither coercion is modelled.
- IpManagement.GenerateIPAddresses: requires a dotted quad, for the same reason.
- IpManagement.IpStore.CreateIPPool: requires a dotted quad, for the same reason.
- Ipv4.FormatParse: holds only for canonical dotted quads. `"010.0.0.1"` parses, but formats back as `"10.0.0.1"`.
- IpManagementPage.FreshPoolStats: is stated over the parsed network address `n`, not over the address text.
- InteractiveRack.OfferedPositionsAcceptedByServer: requires non-negative asset heights. InteractiveRack.NegativeHeightOfferRefused shows the offer the server refuses otherwise.
- RackManagement.MovedSpanIsFree: requires every effective height to be at least one. For other heights the three-way test is not intersection; see RackManagement.ConflictsWithEmptySpan.
- A negative prefix (for example `parseInt("-1")`) is not refused by the source: the range grows past 2^32 entries, wraps round and repeats its addresses, reserving a gateway more than once (IpManagement.NegativePrefixRepeats). IpManagement.RangeDistinct, IpManagement.RangeExcludesNetwork, IpManagement.AtMostOneReserved, IpManagementPage.FreshReservedAtMostOne and IpManagementPage.FreshPoolStats therefore require p >= 0.
- A /31 prefix gives an empty range, as the code does, rather than the two addresses RFC 3021 allows on point-to-point links.
- The server's assign, release, reserve and bulk update check no status before writing; only the menu gates them. The model keeps it that way.
- `.sort()` on line 51 of interactive-rack.tsx sorts the rack's asset array in place. The model sorts a copy, so that aliasing is not captured.
- Absent form fields are the empty string, since both are falsy in JavaScript.
- `.order("name")` uses the database's collation. The model uses code-point order.
- Database ids are UUIDs; the model uses a counter.
- Timestamps are a string parameter.
- The floor-plan grid size is a natural number. A NaN or negative size typed into the inputs is not modelled.
- Status strings outside the four known ones are carried as an `Other` status.
- The floor plan's racks carry the racks page's row type, with its statistics.
