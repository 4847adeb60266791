# Verified model of the transaction runner, reverse DNS, delegation walk and bounded stores

A Dafny model of five cores of PowerDNS-AuthAdmin, with proofs of what their
documentation and tests promise. `dafny verify dfyconfig.toml` checks everything.

**SQLite transaction runner** (`SqliteConnection`, `TransactionRunner`,
`TransactionShapes`, `TransactionBrackets`, `TransactionSchedule`). One connection is a
database value with a stack of open marks. A callback is a tree of statements, tests,
awaited nested calls, and statements whose failure makes SQLite roll back on its own.
`TransactionRunner` runs one call with the code's own commands (class `Runner`) and
relates it to `Meaning`, which knows no commands or savepoints. `TransactionShapes` says
exactly which callbacks are atomic, and `TransactionBrackets` which logs are well
bracketed. `TransactionSchedule` is the event loop: any number of calls chained on
`tail`, any interleaving of their steps, shown equal to the serial run in call order.
Nested calls are awaited where they are made. The deferred constraints are any relation
that says which database may be committed over the one its transaction found, provided
that leaving it as it was is always allowed: SQLite counts the violations a transaction
adds. So nothing is assumed of the database a call finds.

**Reverse DNS** (`ReverseName`, `AddressText`, `ReverseZoneLaws`, `ClasslessZones`,
`AutoPtr`, `AutoPtrItems`, `PtrReview`, `PtrReconcile`, `PtrRows`, `PtrConvergence`,
`PtrPage`, `PtrRectify`, `PtrRound`, `PtrRowGroups`, `PtrFindings`, `ExpanderAgreement`).
The address parser and printer are inverse; the chosen owner leads back to the address; so
the write planner never clobbers and reaches a fixed point. `ClasslessZones` reads off a
zone's name which addresses it covers, `AutoPtrItems` says what each planned item is,
`PtrRows` what each row of the reconciler says, and `PtrFindings` when two rows are one
finding. `PtrConvergence` settles the fleet-wide reconciler in one round when each fix
is made at its own row's place, `PtrPage` says when the items the page sends are enough,
`PtrRectify` where the route makes a fix, and `PtrRound` puts the three together: when
the next scan is settled after the page's items went through the route.

**Delegation walk** (`Delegation`, `DelegationReading`, `DelegationLaws`,
`DelegationTree`). `query` and `lookup` are functions. `DelegationReading` says record by
record what a reply means and who is asked next. The path's shape holds against any
replies; on a well-formed delegation tree the walk finds the parent's view.

**Token bucket** (`RateLimit`) over real numbers and a clock in milliseconds: the
class with its capped map, and the atomic script with key expiry.

**Bounded stores and codecs** (`RevealStore`, `Totp`). The in-process reveal store,
and base32 over a signed 32-bit accumulator nothing ever masks (`Bits` writes out the
operators), with the HOTP construction around an abstract keyed digest.

`Text`, `Options`, `InsertionMap`, `Sorting`, `Selection` and `Bits` hold the string, map,
sort, filter and word operations the sources use. Loops and objects of the sources are
methods and classes here, each proved against a function; the theorems are about the
functions, and say what each gives in terms of its inputs.

## Where the code and its comments differ

The model follows the code.

- `lib/db/sqlite-transaction.ts`: a callback that catches the error of a statement
  on which SQLite rolled back, and writes on, leaves those writes behind although its
  call is rejected (`WriteAfterAbortSurvives`). Calls of one shape of callback are
  all atomic exactly when no run of the shape can do so (`AtomicIff`).
- `lib/db/sqlite-transaction.ts:78-81`: after an automatic rollback `ROLLBACK TO` throws
  inside the catch, so a nested call rejects with that error and not with its callback's
  (`NestedRejectionMeans`), and its savepoint is never closed in the log
  (`RollbackUnderNested`, with `TopBracketedIff` for the exact condition).
- `lib/dns/reverse-name.ts:56-95`: with an embedded dotted quad the dots of earlier
  groups are not looked for, so `::1.2:1.2.3.4` is accepted with a non-hexadecimal
  digit (`DottedGroupAccepted`). The exact condition is that dots stand only after the
  last colon (`ExpandIsHexIff`).
- `lib/dns/reverse-name.ts:154-160` calls `in-addr.arpa.` and `ip6.arpa.` the last
  names tried; the loop also tries `arpa.`.
- `app/api/admin/pdns/auto-ptr/rectify/route.ts:74-95` looks for the reverse zone among
  all hosted ones, `lib/dns/ptr-reconcile.ts:146` among those on the row's side of a
  split horizon. A /16 hosted inside and its /24 hosted outside are enough for a fix to
  land in the zone the review does not show (`SplitHorizonLandsElsewhere`); it does what
  is shown exactly when the two agree (`LandsIff`).
- The same route gets an orphan's address only, and not the zone the orphan was read
  from (`lib/dns/ptr-reconcile.ts:193-206`). With a /16 and its /24 on one server, and a
  PTR at an address's owner in both, the /16's is reported as an orphan and removing it
  empties the good PTR in the /24 (`OrphanFixEmptiesOkRow`). On one side of the horizon
  every other writable row's fix lands where it should, and an orphan's exactly when the
  route finds its address where it was read (`OneSideLandsIff`).
- One removal is sent for an orphan, whatever the number of its targets
  (`app/(app)/zones/auto-ptr/_components/ptr-reconciler.tsx:355-358`), so one round settles
  it exactly when its targets are one name (`PageRoundSettlesIff`).
- `lib/dns/delegation.ts:38-39` calls `parentServers` the servers that answered; a
  `delegated` outcome lists the servers the level would ask, whether or not they did
  (`ReadsCut`).
- `components/domain/ptr-row-groups.ts:108-127` does not trim: the two expanders agree
  exactly on trimmed text with dots after the last colon only (`ExpandersAgreeIff`,
  `UntrimmedDiffers`).
- `lib/dns/ptr-reconcile.ts` compares names as stored, and a fix writes the name with
  a trailing dot, so one round settles exactly when the names to be written are among
  the forward names in that spelling (`OneRoundSettlesIff`); absolute forward names are
  enough, and the relative name `h` is not (`RelativeNameUnsettled`).
- `lib/auth/temp-reveal-store.ts:38-45` says anonymous flows share one quota and evict
  only each other. The quota is per exact actor id, and an anonymous mint into a map
  full of user-bound entries evicts the oldest of those (`AnonymousEvictsUser`).
- `lib/auth/rate-limit.ts`: `evictOldest` tests the key's truthiness, so a map whose
  oldest key is the empty string outgrows its cap (`EmptyKeyOutgrowsCap`).
  `retryAfterSeconds` is right exactly when the capacity is at least one token; half a
  token never allows a take (`HalfTokenNeverAllows`).
- `lib/auth/totp.ts:80-100`: a window that reaches before the epoch throws, because a
  negative counter does not fit the unsigned write (`FirstStepThrows`).

## Model

| member | source | states |
|---|---|---|
| TransactionRunner.Runner.RunTop | lib/db/sqlite-transaction.ts:87-104 | a top-level call issues BEGIN, the callback, then COMMIT, or ROLLBACK with its own error swallowed, so that a callback that threw rejects the call with its own error |
| TransactionRunner.Runner.RunNested | lib/db/sqlite-transaction.ts:66-85 | a nested call runs between SAVEPOINT and RELEASE, rolls back to it on rejection, and `depth` returns to its entry value |
| TransactionRunner.Runner.Await | lib/db/sqlite-transaction.ts:66-95 | a whole callback with its nested calls does what the specification function says and leaves `depth` as it was |
| TransactionRunner.CallbackMeans | lib/db/sqlite-transaction.ts:66-95 | for every tree of awaited calls and all constraints, a run that resolves or rejects has the command-free meaning: same database, same open marks, same outcome; after an automatic rollback the transaction is gone, with BEGIN's database when the shape cannot leave a write behind |
| TransactionRunner.NestedMeans | lib/db/sqlite-transaction.ts:66-85 | for every nested call, one rejected by its callback restores exactly the database at its SAVEPOINT, keeping what its callers wrote, and one that resolves keeps its own writes; open marks are as before |
| TransactionRunner.TopAtomic | lib/db/sqlite-transaction.ts:87-104 | a call whose shape cannot leave a write behind after an automatic rollback commits all of its callback's meaning or leaves the database it found, with no transaction open |
| TransactionRunner.WriteAfterAbortSurvives | lib/db/sqlite-transaction.ts:94-103 | a concrete callback that writes after an automatic rollback: its row stays although the call is rejected |
| TransactionRunner.RunMay | lib/db/sqlite-transaction.ts:66-104 | the ways a callback's shape allows it to end cover how it does end, and an end the shape calls unwritten leaves the database as it was |
| TransactionRunner.LooseKeeps | lib/db/sqlite-transaction.ts:66-85 | outside any transaction a callback that cannot leave a write behind leaves the database and the open marks as they were |
| TransactionShapes.ShapeDecides | lib/db/sqlite-transaction.ts:66-104 | what a callback may do depends on its shape only |
| TransactionShapes.TailRun | lib/db/sqlite-transaction.ts:66-104 | a callback that meets an automatic rollback ends outside any transaction, on BEGIN's database with the effects that were committed on their own after it |
| TransactionShapes.NestedRun | lib/db/sqlite-transaction.ts:66-85 | the same of one nested call, open transaction or not: a refused outermost RELEASE leaves the database it found |
| TransactionShapes.SavepointNamesFresh | lib/db/sqlite-transaction.ts:66-74 | every SAVEPOINT of a call is issued under a name that is not open, for every callback, database and constraints |
| TransactionShapes.BeginRefused | lib/db/sqlite-transaction.ts:87-89 | a top-level call inside an open transaction is rejected with BEGIN's error and changes nothing |
| TransactionShapes.TopRejectionMeans | lib/db/sqlite-transaction.ts:87-104 | for every callback, a call is rejected with the callback's own error whenever its callback threw, with COMMIT's error exactly when the callback returned and its meaning may not be committed or an automatic rollback ended the transaction, and resolves otherwise |
| TransactionShapes.NestedRejectionMeans | lib/db/sqlite-transaction.ts:66-85 | a nested call rejects with its callback's own error when the meaning rejects, with RELEASE's error when that is refused, and with the error of ROLLBACK TO exactly when an automatic rollback closed its savepoint |
| TransactionShapes.AtomicIff | lib/db/sqlite-transaction.ts:56-116 | every callback of a shape is atomic, on every idle connection and under all deferred constraints, exactly when the shape cannot leave a write behind after an automatic rollback |
| TransactionBrackets.CallbackBracketed | lib/db/sqlite-transaction.ts:66-85 | the savepoint commands of a run that meets no automatic rollback balance, and a savepoint opens only under a name that is not open |
| TransactionBrackets.NestedBracketed | lib/db/sqlite-transaction.ts:66-85 | the same of one nested call |
| TransactionBrackets.TopBracketed | lib/db/sqlite-transaction.ts:87-104 | a call that meets no automatic rollback logs BEGIN, balanced savepoints, and COMMIT or ROLLBACK |
| TransactionBrackets.TopBracketedIff | lib/db/sqlite-transaction.ts:66-104 | the log of any call is well bracketed exactly when no automatic rollback happens under an open nested call and no nested call that commits on its own is refused |
| TransactionBrackets.RollbackUnderNested | lib/db/sqlite-transaction.ts:76-84 | a concrete call that is not: BEGIN, SAVEPOINT, ROLLBACK TO, COMMIT, ROLLBACK |
| TransactionRunner.TopBlock | lib/db/sqlite-transaction.ts:87-104 | whatever the callback does, its call logs one block from BEGIN to COMMIT or ROLLBACK |
| TransactionSchedule.RestIsSerial | lib/db/sqlite-transaction.ts:56-116 | in every state any interleaving reaches, finishing the calls made so far gives the serial run's connection, log and outcomes |
| TransactionSchedule.SerialEquivalence | lib/db/sqlite-transaction.ts:56-116 | every settled interleaving of concurrent calls equals running the callbacks one by one in call order |
| TransactionSchedule.InterleavingIsAtomic | lib/db/sqlite-transaction.ts:56-116 | the final database is the fold of the callbacks' meanings in call order, rejected ones contributing nothing, when none can leave a write behind after an automatic rollback |
| TransactionSchedule.SerialBlocks | lib/db/sqlite-transaction.ts:106-114 | for any callbacks the serial log is one block a call, in call order |
| TransactionSchedule.LogIsBlocks | lib/db/sqlite-transaction.ts:106-114 | at every moment of every interleaving of any callbacks the log is a prefix of non-overlapping blocks in call order |
| TransactionSchedule.NoDeadlock | lib/db/sqlite-transaction.ts:60-66 | while a call is unsettled some step is possible and each step leaves less to do |
| ReverseName.ParseIpv4Loop | lib/dns/reverse-name.ts:36-48 | the octet loop accepts and returns what the specification says |
| ReverseName.FindReverseZoneLoop | lib/dns/reverse-name.ts:161-195 | the scan for the best block and the suffix walk compute the specification |
| ReverseName.LongestRunLoop | lib/dns/reverse-name.ts:239-259 | the run scan of the printer computes the specification |
| AddressText.Ipv4RoundTrip | lib/dns/reverse-name.ts:36-48 | printing four octets and parsing gives them back |
| AddressText.Ipv4SpellingUnique | lib/dns/reverse-name.ts:36-48 | an accepted quad is, trimmed, the one canonical spelling of its octets |
| AddressText.ExpandIsHexIff | lib/dns/reverse-name.ts:56-95 | every accepted text expands to 32 characters, all hexadecimal exactly when dots stand only after the last colon |
| AddressText.DottedGroupAccepted | lib/dns/reverse-name.ts:65-83 | a concrete text with a dotted earlier group is accepted and does not expand to hexadecimal digits |
| AddressText.ScanFinds | lib/dns/reverse-name.ts:239-259 | the scan ends with the leftmost of the longest runs of zero groups |
| AddressText.Ipv6RoundTrip | lib/dns/reverse-name.ts:225-261 | printing any 128-bit address and expanding gives the same 32 digits; no leading zeros, leftmost longest run of two or more zero groups left out (sections 4.1 and 4.2 of RFC 5952) |
| ReverseZoneLaws.WalkIsLongest | lib/dns/reverse-name.ts:187-193 | the suffix walk returns the longest hosted name strictly above the owner, or nothing exactly when there is none |
| ReverseZoneLaws.FindIsMostSpecific | lib/dns/reverse-name.ts:132-200 | null exactly when nothing hosted covers the address; otherwise a covering classless block of least span, else the longest hosted suffix |
| ClasslessZones.CoversIffHolds | lib/dns/reverse-name.ts:132-152 | a zone name covers an address exactly when it is `first/n` above the address's /24, with n from 25 to 32, first on the boundary of a /n block and the last octet in that block, or `first-last` with the last octet between; no other spelling covers anything |
| ClasslessZones.FindClassless | lib/dns/reverse-name.ts:161-184 | the answer for an IPv4 address is classless exactly when the name of some hosted zone covers it so, and is then such a zone of the fewest addresses, the first listed of those, with the last octet in front |
| ReverseZoneLaws.CanonicalZoneIs | lib/dns/reverse-name.ts:203-206 | a zone's canonical spelling drops surrounding space and final dots, is in lower case and ends in one dot |
| ReverseZoneLaws.OrderIrrelevant | lib/dns/reverse-name.ts:161-195 | the order and repetition of hosted zones matter only between blocks of equal span |
| ReverseZoneLaws.OwnerLeadsBackIff | lib/dns/reverse-name.ts:161-261 | the owner of any match, plain, classless or nibbles, denotes the queried address, except exactly for IPv6 text with a dot before its last colon |
| ReverseZoneLaws.OwnerDeterminesAddress | lib/dns/reverse-name.ts:161-195 | distinct addresses never get the same owner, whatever zones are hosted on either side |
| ReverseZoneLaws.OwnerIsLower | lib/dns/reverse-name.ts:161-195 | every owner is in lower case, so comparing owners without case is comparing them |
| AutoPtr.UniqueAddressesLoop | lib/dns/auto-ptr.ts:94-100 | the loop keeps the first record of each address |
| AutoPtr.UniqueLaws | lib/dns/auto-ptr.ts:94-100 | the kept records come from the input and stand for pairwise different addresses |
| AutoPtr.UniqueCovers | lib/dns/auto-ptr.ts:94-100 | every valid address of the input keeps a record |
| AutoPtrItems.UniqueAre | lib/dns/auto-ptr.ts:94-100 | the kept records are exactly those with no earlier record of the same address, in order |
| AutoPtr.PlanPtrChanges | lib/dns/auto-ptr.ts:106-246 | the two loops of the planner compute the plan |
| AutoPtr.CandidatePtrOwners | lib/dns/auto-ptr.ts:249-265 | the loop maps the owner of every hosted address before or after to its zone |
| AutoPtrItems.PlanAddresses | lib/dns/auto-ptr.ts:114-115 | an upsert's desired addresses are the first records of each address, a removal has none, and the removed ones are the previous addresses no desired one is the same as |
| AutoPtrItems.PlanIs | lib/dns/auto-ptr.ts:116-246 | the plan is one item for each desired record that is an address, then one for each removed one, in order |
| AutoPtrItems.SkippedItem | lib/dns/auto-ptr.ts:121-131 | an address under no hosted zone is skipped with its owner in the global tree and that reason |
| AutoPtr.OneItemPerAddress | lib/dns/auto-ptr.ts:94-246 | each distinct valid address of the change has exactly one item |
| AutoPtr.PlanOwnersOnce | lib/dns/auto-ptr.ts:106-246 | no two hosted items of a plan share an owner |
| AutoPtr.NoClobber | lib/dns/auto-ptr.ts:106-246 | without takeover the records naming anything other than the forward name are the same after as before at every owner |
| AutoPtr.TakeoverOnlyAtDesired | lib/dns/auto-ptr.ts:106-246 | such records change only at owners of desired hosted addresses |
| AutoPtr.DesiredPoints | lib/dns/auto-ptr.ts:118-182 | a desired hosted address ends with exactly one PTR naming the target with the record's flag, or is left alone in a conflict |
| AutoPtrItems.DesiredOutcome | lib/dns/auto-ptr.ts:118-182 | a desired hosted address changes nothing when a record naming something else is found without takeover or its PTR is as wanted; otherwise it ends with one PTR to the lower-case name, with the record's flag, at the change's TTL, without one that of the RRset before, without either zero |
| AutoPtrItems.DesiredItem | lib/dns/auto-ptr.ts:118-182 | exactly when the item of a desired hosted address is create, conflict, unchanged or update, in terms of the records found |
| AutoPtrItems.RemovedItem | lib/dns/auto-ptr.ts:184-244 | exactly when the item of a removed hosted address is delete, update or unchanged and why; the records naming something else stay in order at their own TTL |
| AutoPtr.RemovedGone | lib/dns/auto-ptr.ts:184-244 | no PTR of a removed hosted address names the target any more |
| AutoPtr.FixedPoint | lib/dns/auto-ptr.ts:106-246 | replanning the same change after applying its plan writes nothing |
| AutoPtr.FixedPointAfterSave | lib/dns/auto-ptr.ts:106-246 | so does replanning it against the forward RRset it left |
| AutoPtr.ItemsAreCandidates | lib/dns/auto-ptr.ts:249-265 | every hosted item is at a candidate owner, in its zone |
| AutoPtr.ReadsOnlyCandidates | lib/dns/auto-ptr.ts:249-265 | restricting the existing RRsets to the candidate owners leaves the plan unchanged |
| PtrReview.BuildPtrReview | components/domain/ptr-review.ts:66-89 | the loop over items builds the per-zone view, zones in locale order |
| PtrReview.ReviewPartitions | components/domain/ptr-review.ts:66-89 | each zone with items appears once, with the RRsets before and after of exactly its own items; a zone without items is absent |
| PtrReview.ZoneViewIs | components/domain/ptr-review.ts:68-87 | a zone's entry counts its items and lists their RRsets before and after in order; items without a zone are under `(no reverse zone)` |
| PtrReview.ReviewSorted | components/domain/ptr-review.ts:88 | the zones come in the order of their names |
| PtrReview.ItemShows | components/domain/ptr-review.ts:77-86 | an item shows before it the RRset read, and after it the target alone or the targets of any other name in order, each as an absolute name at the TTL given or 3600; nothing when no target is left |
| PtrReview.BeforeIsStored | components/domain/ptr-review.ts:77-80 | an item read from its place shows the RRset stored there, with its TTL and each content made absolute, and nothing exactly when nothing is stored |
| PtrReview.AbsoluteIs | components/domain/ptr-review.ts:49-52 | a name is shown without surrounding space, in lower case, with one final dot added exactly when it has none |
| PtrReconcile.GroupLoop | lib/dns/ptr-reconcile.ts:122-141 | forward records are grouped by horizon and canonical address |
| PtrReconcile.GroupRowsLoop | lib/dns/ptr-reconcile.ts:143-190 | the group loop yields every group's row and all claimed owners |
| PtrReconcile.ReconcilePtrs | lib/dns/ptr-reconcile.ts:112-240 | the whole reconciler: group rows, orphan rows, sorting and counts |
| PtrRows.GroupedIs | lib/dns/ptr-reconcile.ts:122-141 | there is a group for each horizon and address with a record, holding exactly its records in order under the first one's spelling |
| PtrRows.MatchIs | lib/dns/ptr-reconcile.ts:116-118 | an address is matched against the zones hosted on its side as listed, repeated or not |
| PtrRows.RowStatus | lib/dns/ptr-reconcile.ts:155-170 | of an address row: unhosted exactly when no hosted copy is found; ok exactly when hosted and its one target is a forward name; ambiguous exactly when hosted, not ok, with more than one name; missing exactly when hosted with one name and no target; mismatch exactly when hosted with one name and targets that are not ok; the suggestion is the first target among the names, else the least name |
| PtrRows.RowFields | lib/dns/ptr-reconcile.ts:145-189 | the zone, owner, server, current targets, TTL and permission of an address row are those of the copy its address is matched to |
| PtrRows.HostOfIs | lib/dns/ptr-reconcile.ts:103-110 | a zone's host on a side is the first writable copy there, else the first copy, else none |
| PtrRows.LookupIs | lib/dns/ptr-reconcile.ts:119-120 | a place reads the last record stored there |
| PtrRows.RowsAre | lib/dns/ptr-reconcile.ts:192-228 | the rows are one a group and one for each nonempty PTR at an address's owner that no group claims, sorted by status in the stated order and by address within one |
| PtrRows.StatsAre | lib/dns/ptr-reconcile.ts:230-238 | each count is the number of rows with that status |
| PtrConvergence.FixedRowOutcome | lib/dns/ptr-reconcile.ts:143-190 | after the fixes a fixed row has the suggested target as its only PTR, and is ok exactly when that is one of its names |
| PtrConvergence.OneRoundSettlesIff | lib/dns/ptr-reconcile.ts:143-215 | with each fix made at its own row's place, a second reconciliation has only `ok` and `unhosted` rows exactly when every name the fixes write is among the forward names it is compared with |
| PtrConvergence.AbsoluteNamesSettle | lib/dns/ptr-reconcile.ts:143-190 | forward names spelled with their trailing dot meet that condition |
| PtrConvergence.OkRowKept | lib/dns/ptr-reconcile.ts:143-190 | with each fix made at its own row's place, a group whose row was ok has the very same row afterwards |
| PtrConvergence.OkStaysOk | lib/dns/ptr-reconcile.ts:143-215 | with each fix made at its own row's place, every ok row of the first pass is a row of the second |
| PtrConvergence.SecondPassStats | lib/dns/ptr-reconcile.ts:217-240 | with each fix made at its own row's place and absolute forward names, the second pass counts no missing, mismatch, ambiguous or orphan row |
| PtrConvergence.RelativeNameUnsettled | lib/dns/ptr-reconcile.ts:160-190 | for every IPv4 address, one record with the relative name `h` leaves a row that is not settled |
| PtrPage.PageRoundSettlesIff | app/(app)/zones/auto-ptr/_components/ptr-reconciler.tsx:335-361 | the items the page sends, writable rows only and one removal for an orphan, settle everything at the rows' places exactly when the names do, every fix may be written, and the targets of each orphan are one name |
| PtrPage.QuietIffCounts | lib/dns/ptr-reconcile.ts:217-240 | only `ok` and `unhosted` rows are left exactly when the four other counts are zero |
| PtrRectify.LandsIff | app/api/admin/pdns/auto-ptr/rectify/route.ts:74-95 | a fix that changes anything leaves at the place shown exactly the RRset shown, and every other owner, zone and server as it was, exactly when the route, which searches all hosted zones, lands at that place |
| PtrRound.RouteIsPage | app/api/admin/pdns/zones/[zoneId]/rrsets/_auto-ptr.ts:186-275 | a request whose items all land at their rows' places does to the stored RRsets what the page's fixes do to the reconciler's records, for any rows |
| PtrRound.NextScan | app/api/admin/pdns/zones/[zoneId]/rrsets/_auto-ptr.ts:186-275 | whatever is sent, what the copies hold afterwards can be read by a scan: absolute targets at lower-case owners of hosted copies |
| PtrRound.RouteRoundSettlesIff | app/api/admin/pdns/zones/[zoneId]/rrsets/_auto-ptr.ts:186-275 | on any fleet, the next scan after the page's items went through the route has only `ok` and `unhosted` rows exactly when the items suffice and every row's fix lands at the row's place |
| PtrRound.OneSideRoundSettlesIff | app/api/admin/pdns/zones/[zoneId]/rrsets/_auto-ptr.ts:186-275 | with all hosted zones on one side of the horizon, exactly when the items suffice and the route finds every orphan's address in the zone and at the owner where the orphan was read |
| PtrRound.OneSideLandsIff | app/api/admin/pdns/zones/[zoneId]/rrsets/_auto-ptr.ts:161-176 | there, the fix of a writable address row always lands at the row's place, and that of a writable orphan exactly when the route finds its address there |
| PtrRound.RouteKeepsOk | app/api/admin/pdns/zones/[zoneId]/rrsets/_auto-ptr.ts:186-275 | the row of a group that was ok is a row of the next scan, unchanged, when no item lands at its place |
| PtrRound.RouteKeepsEveryOk | app/api/admin/pdns/zones/[zoneId]/rrsets/_auto-ptr.ts:186-275 | every ok row is a row of the next scan when every item lands at its own row's place |
| PtrRound.OrphanFixEmptiesOkRow | lib/dns/ptr-reconcile.ts:193-206 | for every IPv4 address, with its /16 and /24 on one server and one side and the same PTR in both, the orphan's fix empties the PTR of the ok row and leaves the orphan |
| PtrRectify.ChooseHostIs | app/api/admin/pdns/zones/[zoneId]/rrsets/_auto-ptr.ts:161-176 | a PTR is written on the forward backend when it has a writable copy of the zone, else on the first copy in its cluster, else on the first, else nowhere |
| PtrRectify.OneSideLands | app/api/admin/pdns/zones/[zoneId]/rrsets/_auto-ptr.ts:161-176 | with all hosted zones on one side of the horizon the route lands at the zone, owner and server the reconciler finds for an address, when that copy is writable |
| PtrRectify.SplitHorizonLandsElsewhere | lib/dns/ptr-reconcile.ts:146-148 | for every IPv4 address, with its /16 hosted inside and its /24 outside, the row inside shows the one and the fix lands in the other |
| PtrRowGroups.PoolRows | components/domain/ptr-row-groups.ts:165-183 | the first loop pools rows by key and keeps first-occurrence order |
| PtrRowGroups.EmitEntry | components/domain/ptr-row-groups.ts:184-198 | an entry becomes one group, or single rows below the minimum size |
| PtrRowGroups.GroupPtrRows | components/domain/ptr-row-groups.ts:165-199 | the grouping as specified |
| PtrRowGroups.GroupingPartitions | components/domain/ptr-row-groups.ts:165-199 | the flattened members are a permutation of the rows |
| PtrRowGroups.SharedGroupIff | components/domain/ptr-row-groups.ts:165-199 | two rows share a group exactly when grouping is on and their keys are equal and not null |
| PtrFindings.KeyOnly | components/domain/ptr-row-groups.ts:79-80 | a row has a key exactly when it is an orphan, a mismatch or unhosted |
| PtrFindings.KeyIff | components/domain/ptr-row-groups.ts:79-100 | two such rows have one key exactly when they agree on status, side, zone, server and permission, on the sets of current and forward names without case, and on the suggestion of a mismatch or the upstream answer of an unhosted row |
| PtrFindings.CommaCollides | components/domain/ptr-row-groups.ts:87-88 | a concrete pair of rows, one name with a comma against two names, with one key though they are not the same finding |
| PtrRowGroups.FirstOccurrenceOrder | components/domain/ptr-row-groups.ts:165-199 | groups come in the order of the first row of each key, are led by their first member, and are named by its id alone or by the key of several |
| PtrRowGroups.AddressOrder | components/domain/ptr-row-groups.ts:145-156 | the address comparison is a strict weak order |
| PtrFindings.Ipv4ValueIff | components/domain/ptr-row-groups.ts:128-139 | a text is ordered as an IPv4 address exactly when it is four parts of one to three digits, each at most 255 |
| PtrFindings.QuadOrder | components/domain/ptr-row-groups.ts:128-148 | IPv4 addresses come octet by octet |
| PtrFindings.FourBeforeSix | components/domain/ptr-row-groups.ts:149-150 | every IPv4 address comes before every IPv6 address |
| PtrFindings.HexOrder | components/domain/ptr-row-groups.ts:151-153 | printed IPv6 addresses come in the order of their 32 digits |
| PtrRowGroups.MembersSorted | components/domain/ptr-row-groups.ts:183-198 | every group's members are in address order |
| ExpanderAgreement.ExpandersAgreeIff | components/domain/ptr-row-groups.ts:108-127 | on every text the first expander accepts, the second gives the same digits exactly when the text is trimmed and has dots only after the last colon |
| ExpanderAgreement.UntrimmedDiffers | components/domain/ptr-row-groups.ts:108-127 | a concrete text with a space in front on which they differ |
| Delegation.GlueFrom | lib/dns/delegation.ts:60-67 | glue addresses are collected by lower-case name, in order |
| Delegation.NextHop | lib/dns/delegation.ts:207-219 | the loop over the nameservers computes the specification's next servers |
| DelegationReading.NextServersAre | lib/dns/delegation.ts:207-219 | the next servers are, nameserver by nameserver in order, its glue records' addresses if there are any and otherwise what it resolves to |
| DelegationReading.AskIs | lib/dns/delegation.ts:90-101 | the first allowed server that answers is taken after the failures of all before it, and none only when all fail, with the last failure as the error |
| DelegationReading.AnsweredLevel | lib/dns/delegation.ts:90-101 | a level is what the reply of its first answering server says |
| DelegationReading.SilentLevel | lib/dns/delegation.ts:102-113 | a level none of whose allowed servers answers ends unreachable with the last failure, or `no server answered` |
| DelegationReading.WalkIs | lib/dns/delegation.ts:88-246 | the walk goes from level to level until one ends it, or ends unreachable when the allowed levels run out |
| DelegationReading.LocatedIs | lib/dns/delegation.ts:80-86 | it starts at the root servers for the zone in lower case with its final dot, with four servers a level and two levels more than labels by default |
| DelegationReading.ReadsReferral | lib/dns/delegation.ts:172-235 | a referral to a zone between the current one and the target goes on with that zone's servers, or ends unreachable without any |
| DelegationReading.ReadsCut | lib/dns/delegation.ts:188-205 | a referral to the target is delegated with the owner's NS names once each, the glue by name, the DS records in the referral or else those on request, and the level's allowed servers |
| DelegationReading.ReadsApex | lib/dns/delegation.ts:139-155 | an authoritative NS answer is served by the parent, or delegated when the walk stands at the target, with the answer's NS names |
| DelegationReading.ReadsOffPath | lib/dns/delegation.ts:172-187 | a referral off the path, or not longer than the current zone, is not a delegation |
| Delegation.AskLevel | lib/dns/delegation.ts:90-104 | the first of the allowed servers that answers is taken; the last failure is remembered |
| Delegation.FindDelegation | lib/dns/delegation.ts:76-246 | the walk is the iteration of rounds up to the depth bound |
| DelegationLaws.PathDescends | lib/dns/delegation.ts:172-187 | whatever the servers reply, the path is one or more roots followed by strictly longer proper label suffixes of the target |
| DelegationLaws.SuffixIff | lib/dns/delegation.ts:55-58 | a name is under another exactly when that is the root or its labels are the name's last labels |
| DelegationLaws.TooDeepNeedsRootReferrals | lib/dns/delegation.ts:82-88 | with the default depth, running too deep for a target other than the root takes at least three referrals to the root |
| DelegationTree.Round | lib/dns/delegation.ts:88-232 | at a cut of a well-formed tree, whose servers refer to the nearest cut with nameservers whose glue or lookup leads to live servers of it, a round ends with the parent's view or moves to that cut |
| DelegationTree.FindsTheParentsView | lib/dns/delegation.ts:76-246 | on a well-formed tree the walk ends `delegated` with exactly the parent's NS set, glue, DS set and servers and the cuts above when the target is a cut, and `not-delegated` with that path otherwise |
| RateLimit.TokenBucketLimiter.Take | lib/auth/rate-limit.ts:85-110 | one take refills, spends or denies, evicting at the cap |
| RateLimit.TokenBucketLimiter.EvictOldest | lib/auth/rate-limit.ts:139-150 | the scan deletes the first entry with the earliest refill, unless its key is empty |
| RateLimit.CapKeptUnlessOldestIsEmpty | lib/auth/rate-limit.ts:85-95 | one take leaves the map within its cap except exactly when it is full, the key is new and the oldest key is empty |
| RateLimit.CapKeptOverRuns | lib/auth/rate-limit.ts:85-95 | without an empty key the map stays within its cap on every run |
| RateLimit.EmptyKeyOutgrowsCap | lib/auth/rate-limit.ts:139-150 | a concrete full map that a take of a new key makes larger than its cap |
| RateLimit.AllowedBound | lib/auth/rate-limit.ts:85-110 | over any run with a non-decreasing clock the takes allowed for a key between evictions number at most capacity + refillPerSec * elapsed seconds |
| RateLimit.RunValid | lib/auth/rate-limit.ts:85-110 | every run keeps every bucket between zero and capacity and not refilled in the future |
| RateLimit.RefillComposes | lib/auth/rate-limit.ts:96-103 | refilling twice is refilling once |
| RateLimit.DeniedAttemptsAreFree | lib/auth/rate-limit.ts:96-110 | any number of denied attempts leaves every later take's decision as it was |
| RateLimit.RetryIsLeastWait | lib/auth/rate-limit.ts:105-110 | the retry value is the least whole wait after which a take succeeds if none was allowed between, exactly when the capacity is at least one |
| RateLimit.HalfTokenNeverAllows | lib/auth/rate-limit.ts:105-110 | with half a token of capacity a take denied with a wait of one second is denied after every whole wait |
| RateLimit.LifetimeIs | lib/auth/rate-limit.ts:47 | a shared key lives the least whole number of milliseconds that is a second more than filling the bucket takes |
| RateLimit.FullByExpiry | lib/auth/rate-limit.ts:46-48 | by the time the shared key may expire its bucket is full |
| RateLimit.SharedIsLocal | lib/auth/rate-limit.ts:27-49 | on every interleaving of attempts on any keys, while the in-memory map evicts nothing, the script with expiry and the map give the same decisions and retry values |
| RevealStore.TempRevealStore.PruneExpired | lib/auth/temp-reveal-store.ts:141-146 | exactly the entries not yet expired stay, in order |
| RevealStore.TempRevealStore.EvictOldestWhere | lib/auth/temp-reveal-store.ts:152-161 | the oldest entry of the class goes, if there is one |
| RevealStore.TempRevealStore.EnforceCap | lib/auth/temp-reveal-store.ts:163-180 | the actor's quota, then the cap with anonymous entries first |
| RevealStore.TempRevealStore.MintLocal | lib/auth/temp-reveal-store.ts:125-129 | prune, make room, insert |
| RevealStore.TempRevealStore.RedeemLocal | lib/auth/temp-reveal-store.ts:131-139 | any lookup removes the entry; the plaintext is for its actor before expiry |
| RevealStore.KeepNewestKeeps | lib/auth/temp-reveal-store.ts:163-173 | the quota keeps exactly the newest entries of the actor and every other entry |
| RevealStore.AlwaysBounded | lib/auth/temp-reveal-store.ts:125-180 | after every run the map holds at most 1024 entries and no anonymous actor more than 256 |
| RevealStore.MintPrunes | lib/auth/temp-reveal-store.ts:125-146 | after a mint the map holds its entry and, of those before, only entries that expire later than now |
| RevealStore.YieldIsAuthorised | lib/auth/temp-reveal-store.ts:125-139 | a plaintext goes only to the actor of an earlier mint of the token, before its expiry |
| RevealStore.MintedYields | lib/auth/temp-reveal-store.ts:125-139 | a minted token that is not looked up, not evicted and not expired yields its plaintext to its actor |
| RevealStore.UserMintYields | lib/auth/temp-reveal-store.ts:163-180 | for a user-bound token only a mint that finds the map full of user-bound entries, this one the oldest, can prevent that |
| RevealStore.SingleUse | lib/auth/temp-reveal-store.ts:131-139 | with fresh tokens, a token that was looked up once yields nothing ever after |
| RevealStore.UserEntriesEvictedOnlyWhenFull | lib/auth/temp-reveal-store.ts:163-180 | a mint evicts a live user-bound entry exactly when the map is full with no anonymous entry left, and then the oldest |
| RevealStore.AnonymousEvictsUser | lib/auth/temp-reveal-store.ts:163-180 | a concrete full map in which an anonymous mint evicts the oldest user-bound entry |
| Totp.Base32Encode | lib/auth/totp.ts:137-151 | the loop with its wrapping accumulator computes the encoding of section 6 of RFC 4648, unpadded |
| Totp.Base32Decode | lib/auth/totp.ts:153-171 | the loop with its wrapping accumulator reads whole octets and fails on the first letter outside the alphabet |
| Totp.ShiftIn | lib/auth/totp.ts:142 | shifting in bits at 32 bits keeps the pending bits exact however the upper bits wrap |
| Totp.ShiftOut | lib/auth/totp.ts:145 | an unsigned shift and mask read the pending window exactly |
| Totp.RoundTrip | lib/auth/totp.ts:137-171 | decoding undoes encoding for every byte sequence, in either case; the length is the ceiling of 8n/5 |
| Totp.ReencodesIff | lib/auth/totp.ts:137-171 | a text is the encoding of what it decodes to exactly when the dropped bits are fewer than five and zero |
| Totp.SpacingIrrelevant | lib/auth/totp.ts:154-156 | white space and padding may stand anywhere |
| Totp.FailsIff | lib/auth/totp.ts:160-163 | decoding fails with a character exactly when it is the leftmost one outside the alphabet |
| Totp.CounterIsBigEndian | lib/auth/totp.ts:107-116 | the split halves are the counter's eight big-endian bytes, writable exactly when it is not negative and fits 64 bits |
| Totp.TruncateIs | lib/auth/totp.ts:119-126 | dynamic truncation reads 31 bits at the offset and is never negative |
| Totp.HotpShape | lib/auth/totp.ts:107-130 | a code has exactly the digits asked for and denotes, modulo the power of ten, the four digest bytes at the offset without their top bit, the digest being of the counter's eight bytes; there is a code exactly when the secret decodes and the counter fits |
| Totp.SampleCode | lib/auth/totp.ts:118-128 | the digest of the example in section 5.4 of RFC 4226 gives 872921 |
| Totp.VerifyTotp | lib/auth/totp.ts:80-100 | accepts exactly the codes of the steps in the window, and throws exactly when a well-formed code meets a bad secret or a window before the epoch |
| Totp.FirstStepThrows | lib/auth/totp.ts:80-116 | in the first step after the epoch a window of one throws, whatever the secret |

## Left out

- PtrFindings.KeyIff: for names that are not empty and have no comma, and no vertical bar in any field, the characters the key joins with; `CommaCollides` shows what happens otherwise.
- TransactionRunner: sibling nested calls that overlap inside one callback, which can reuse a savepoint name; the model's nested calls are awaited where they are made.
- TransactionSchedule: statements other requests send outside any transaction on the same connection.
- PtrConvergence.OneRoundSettlesIff: assumes one hosted copy of a zone per side of the horizon, one side per server and zone, and PTR records read from hosted copies; so do the theorems of `PtrPage` and `PtrRound`.
- PtrRound.RouteRoundSettlesIff: one request carries all items, read before anything is written; several requests, refusals by permission at the route, failing reads and writes of a backend, and a server that refuses two items at one place are not modelled. It assumes RRsets unique by owner, with absolute names.
- PtrPage.PageRoundSettlesIff: the page sends the suggested target of an ambiguous row, not another pick of the operator, and no `ok` rows.
- DelegationTree.FindsTheParentsView: excludes the root as target; a server that does not answer fails, and one zone is served by each server.
- DelegationLaws.PathDescends: assumes names as the wire decoder returns them, with a trailing dot.
- Totp.VerifyTotp: the step counter is a parameter below 2^64; reading the clock and dividing it by the step are not modelled.
- RateLimit: floating-point rounding; tokens and rates are real numbers, and the options have a capacity that is not negative and a positive rate.
- RateLimit: the in-memory map holds bucket values that each take puts back, where the code updates the bucket object in place.
- RevealStore: the Redis half, whose failed write may or may not have happened.
- Strings are ASCII: trimming, case folding and white space outside ASCII are not modelled.
- `localeCompare` orders of forward records, addresses and zone names are parameters.
- Composite keys the code joins with `|` into one string are records here, except the row-group key, which is the joined string.
- HMAC, token generation, the provisioning URI, the HTTP routes and the auto-PTR orchestrator beyond what it reads, plans and writes for a rectification.
- Group selection state, labels and previews of the row groups, outcome wording and summaries: single-branch helpers.
