# Stellar TimeLock core: a verified model

This project models the security core of Stellar TimeLock and proves what it promises: the time-lock vault contract,
the client that rebuilds vaults from the contract's event log, the pipeline that submits transactions, and the
modules that derive, cache and wipe key material. `dafny verify dfyconfig.toml` verifies all of it.

## The system

**Contract.** `VaultModel` is the vault contract as a state machine on values: instance and persistent storage, the
token ledger, the clock and the event log. `VaultContract` is the contract as it is written, a class whose entry
points assign its storage field by field inside a host that undoes failed calls; every entry point equals its function
in `VaultModel`. `VaultInvariants` proves what every step keeps, `VaultRuns` what holds over whole runs, measured
against the run's own actions rather than the contract's bookkeeping.

**Client view.** `Calendar` prints and reads dates, `Events` publishes and parses events, `Replay` rebuilds rows,
`Paging` fetches the log. `ReplayRefinement` and `ClientView` put contract and client together: what is fetched and
replayed is the contract's own state, up to a stated rounding of the unlock time. `Rows`, `VaultList` and `History`
compose live rows with the backend's records. `ListTruth` says when the composed list agrees with the chain, over one
listing and over many, `Dashboard` goes from the network or a simulation to the list, and `ConcreteReads` has a server
and two runs that the dashboard does not show as they are. `StableSort` is JavaScript's sort, `Decimal` its number
printing.

**Writing.** `WritePipeline` is build, simulate, assemble, sign, send and poll over arbitrary answers of the network.

**Secrets.** `Utf8`, `Words`, `SecureWipe`, `KeyCache`, `Hkdf` and `Envelope` are the byte-level and key-handling code,
with real arrays and aliasing where the program wipes in place. `SessionKeystore` is the seed cache and its locking.

## Assumptions

- A call that fails is undone as a whole. `create_vault` needs this: it pulls the deposit before it checks the id
  counter (contracts/xlm_vault/src/lib.rs:106 and 113). Arithmetic is checked (contracts/xlm_vault/Cargo.toml:19).
- The contract never calls itself, so nothing is ever authorised by its own address. The ledger clock never goes back.
- One token is modelled, the one `init` names. A transfer succeeds exactly when the amount is not negative, the sender
  has it and the recipient's balance fits 128 bits; the supply fits 128 bits and is not minted or burnt in a run.
- The RPC delivers events in chain order, with the ledger's close time as timestamp, and events of this contract only.
- While a read lasts the RPC serves one log: a page is the slice of at most 200 events its request asks for, and its
  cursor resumes behind it. Pages may be short, empty or missing; results that need more say so: that a page without a
  new cursor is the last (`Diligent`), or that every page before the last is full (`Steady`).
- SDK decoding is done: topics arrive as text and values as integers. RPC failover has been tried: an answer is either
  there or not. Amounts and balances are integer stroops.
- A note's date that does not exist in the calendar is not a date (notes printed by the client always exist).
- A dismissal changes a backend record's status and balance and nothing else that is read; a snapshot that arrives
  overwrites its balance, unlock time and status. Either may fail to arrive. Between listings nothing else writes them.
- Asynchronous calls do not interleave. Device storage has one secret slot per wallet, and a failed write leaves it.
- HMAC, key derivation and the cipher are arbitrary functions with the stated lengths; the cipher pair inverts.
- Shifts, masks and `or` of disjoint bits are written as division, remainder and addition; a 32-bit word is its
  unsigned bit pattern.

## Where code and documentation disagree

The model follows the code.

- src/api/soroban-client.ts:1415 says withdrawn vaults take deposits; the contract refuses them
  (contracts/xlm_vault/src/lib.rs:154-156).
- src/api/soroban-client.ts:1411 says events arrive newest first. With a stable sort by timestamp, events of one ledger
  would then be replayed backwards; chain order is assumed instead.
- src/api/soroban-client.ts:1451 mentions a raw unlock time carried next to the note; there is none, the note is all.
- src/security/secure-wipe.ts:188-190 calls the result a view of the buffer it filled. `slice` copies, so the oversized
  buffer keeps the seed's bytes when the copy is wiped; `Utf8.Utf8ToMutableBytes` and `KeyCache.Cache.DeriveKey` say so.
- src/security/session-keystore.ts:83-86 says listeners hear of every flip; dropping or removing the last cached wallet
  is silent (`SessionKeystore.NotifiesOnFlip`).
- src/security/session-keystore.ts:318 says the app locks after being in the background for the limit; the count
  restarts at every report (`SessionKeystore.StayIsCountedFromTheLastReport`, `SessionKeystore.QuietStayLocks`).

## Properties that hold under an exact condition

- Reading a window of the log fails as a whole exactly when an unlock time in it is beyond the last JavaScript date,
  which the contract accepts (`Events.ParseAllPublished`, `ReplayRefinement.UnreadableUnlockIsReachable`).
- The replayed unlock time is the on-chain one floored to midnight exactly for the years 2020 to 2100 and for
  1 January 1970 (`ReplayRefinement.UnlockShownMeans`, `ReplayRefinement.FarUnlockReadsAsUnknown`).
- With a backend record, an unpaid vault's row agrees with the chain at all times exactly when the record does not say
  "withdrawn" and the unlock time it gives is the current one (`ReplayRefinement.SnapshotDecidesStatus`). A stale
  snapshot is written back unchanged after every listing from events, and one listing that misses the vault turns a
  correct record into "withdrawn" until a row from elsewhere overwrites it; the exact condition over any number of
  listings is `ListTruth.StatusAfterListings`, the failing input `ListTruth.OneMissIsForGood`.
- A listed vault has its status on chain exactly when the row read for it leads to that status, itself or rescued by its
  record, or it was not read, is withdrawn, and its record says "withdrawn" or still "live"
  (`ListTruth.ListedStatusIsTrueIff`, `ListTruth.RescuedStatusIff`). A simulated read is true
  (`Dashboard.SimulatedIsListed`), a replayed one but between the unlock time shown and the real one
  (`ListTruth.ReplayedReadIsTrueIff`).
- A fetched vault without a record is listed exactly when its replayed row has an unlock and a creation time
  (`Dashboard.DashboardShowsChain`); one unlocking in 2101 is not (`ConcreteReads.FarVaultIsNotListed`).
- Paging reaches the end of the log unless it stops at a thousand rows or twenty requests; with pages full up to the last
  only the former can happen (`Paging.ReadReachesEnd`, `ClientView.SixRequestsSuffice`), and then it is the newest events
  that are missing (`ConcreteReads.NewestWithdrawalIsDropped`).
- Every known vault has exactly one "create" row in the history exactly when no backend record names a vault that the
  live stream shows someone else creating (`History.HistoryComplete`, `History.ForeignRecordHasNoRow`).
- Sanitising leaves a row with uninitialised times exactly when the snapshot it is rebuilt from lacks them too
  (`VaultList.SanitisedLooksZeroIff`, `VaultList.ZeroRowCanSurvive`).
- UTF-8 conversion round-trips exactly for strings without unpaired surrogates (`Utf8.RoundTripIffWellFormed`).

## Model

| member | source | states |
|---|---|---|
| VaultContract.XlmVault.Invoke | contracts/xlm_vault/src/lib.rs:75-268 | one call: outcome and new state are those of the value model, and a failed call, however far it got, leaves the state as it was |
| VaultContract.XlmVault.Init | contracts/xlm_vault/src/lib.rs:78-85 | wires the token and starts ids at 0, once |
| VaultContract.XlmVault.CreateVault | contracts/xlm_vault/src/lib.rs:90-142 | the checks in order, the pull before the counter check, and on success the new vault, index, ledger and event |
| VaultContract.XlmVault.Deposit | contracts/xlm_vault/src/lib.rs:145-165 | adds to balance and ledger, leaves the unlock time, emits |
| VaultContract.XlmVault.ExtendLock | contracts/xlm_vault/src/lib.rs:169-198 | pushes the unlock time forward, or fails without wrapping around |
| VaultContract.XlmVault.Withdraw | contracts/xlm_vault/src/lib.rs:202-224 | empties and closes the vault and pays its owner, not before the unlock time |
| VaultContract.XlmVault.Pay | contracts/xlm_vault/src/lib.rs:250-267 | moves tokens, or traps before init and when the token refuses |
| VaultInvariants.RunKeepsInv | contracts/xlm_vault/src/lib.rs:78-224 | every reachable state has dense ids, an agreeing index, covered balances and an ordered log |
| VaultInvariants.CallConserves | contracts/xlm_vault/src/lib.rs:106-125 | no call changes any owner's wallet plus vaults, nor what the contract holds beyond its vaults |
| VaultInvariants.VaultOnlyChangesByOwner | contracts/xlm_vault/src/lib.rs:17-22 | a vault never disappears, changes hands, unlocks earlier or reopens, and changes only when its owner signs |
| VaultInvariants.CreateSucceedsIff | contracts/xlm_vault/src/lib.rs:97-116 | creation succeeds exactly for a signed positive deposit the owner has, a future unlock and a free id, and stores exactly that vault under the next id |
| VaultInvariants.DepositSucceedsIff | contracts/xlm_vault/src/lib.rs:146-158 | a deposit succeeds exactly for the owner of an unpaid vault who has the amount; the balance cannot overflow |
| VaultInvariants.ExtendSucceedsIff | contracts/xlm_vault/src/lib.rs:175-192 | an extension succeeds exactly for the owner of an unpaid vault within 64 bits, and changes nothing else |
| VaultInvariants.WithdrawSucceedsIff | contracts/xlm_vault/src/lib.rs:203-220 | a withdrawal succeeds exactly for the owner of an unpaid vault past its unlock; the payment cannot fail |
| VaultInvariants.InitAnswers | contracts/xlm_vault/src/lib.rs:78-85 | wiring stores the token given and starts ids at 0; a second wiring is refused and changes nothing |
| VaultInvariants.CreateAnswers | contracts/xlm_vault/src/lib.rs:97-116 | exactly when creation traps, and gives each of its errors |
| VaultInvariants.DepositAnswers | contracts/xlm_vault/src/lib.rs:146-158 | exactly when a deposit traps, and gives each of its errors |
| VaultInvariants.ExtendAnswers | contracts/xlm_vault/src/lib.rs:175-192 | exactly when an extension traps, and gives each of its errors |
| VaultInvariants.WithdrawAnswers | contracts/xlm_vault/src/lib.rs:203-220 | exactly when a withdrawal traps, and gives each of its errors; it answers with the balance |
| VaultRuns.TimeLock | contracts/xlm_vault/src/lib.rs:202-224 | every payment out is to the vault's creator, of everything ever put in, after every unlock time the vault ever had |
| VaultRuns.PaidOnce | contracts/xlm_vault/src/lib.rs:208-217 | two payments of one run are never for the same vault |
| VaultRuns.DepositsEndAtPayout | contracts/xlm_vault/src/lib.rs:154-156 | nothing is added to a vault after it was paid out |
| VaultRuns.BalanceIsDeposits | contracts/xlm_vault/src/lib.rs:158 | the stored balance is the sum of the run's deposits until it is paid out, then zero |
| VaultRuns.RunConserves | contracts/xlm_vault/src/lib.rs:257-267 | the contract holds exactly its vault balances plus what was sent to it directly; wealth moves only by outside transfers |
| VaultRuns.FundsNeverStuck | contracts/xlm_vault/src/lib.rs:202-224 | from any reachable state, after anything others do, the owner can withdraw in full once the clock passes the unlock |
| VaultRuns.OthersCannotTouch | contracts/xlm_vault/src/lib.rs:17-22 | over any stretch in which the owner signs nothing, the vault is untouched |
| VaultRuns.VaultPersists | contracts/xlm_vault/src/lib.rs:186-192 | over any stretch of a run a vault keeps its identity and its unlock time only grows |
| VaultRuns.UnlocksAfterCreation | contracts/xlm_vault/src/lib.rs:101-104 | every vault unlocks later than it was created |
| VaultRuns.TokenIsWiredOnce | contracts/xlm_vault/src/lib.rs:76-85 | once set the token never changes and every later init is refused |
| VaultRuns.IndexIsExact | contracts/xlm_vault/src/lib.rs:227-237 | list_owned is the increasing sequence of exactly the owner's ids; ids are 0 to NextId - 1, each under its own key |
| Calendar.NoteRoundTrip | src/api/soroban-client.ts:1454-1461 | printing an unlock second and reading the note gives its UTC midnight for 2020 to 2100 and 0 otherwise |
| Calendar.DateOfIsInverse | src/api/soroban-client.ts:1068-1073 | every date of the Gregorian calendar from 1970 is the date of its own day |
| Calendar.IsoDayReads | src/api/soroban-client.ts:1068-1073 | a printed day is year, month and day, in four, two and two digits |
| Calendar.DateAtIff | src/api/soroban-client.ts:1455 | the pattern of a date matches exactly ten characters of digits with two dashes |
| Calendar.FindsTheFirst | src/api/soroban-client.ts:1455 | a date is found where the pattern matches first, and none exactly when it matches nowhere |
| Events.ParsePublished | src/api/soroban-client.ts:1050-1085 | each event the contract publishes parses to the row it means, or throws when its unlock cannot be printed |
| Events.ParseAllPublished | src/api/soroban-client.ts:1216-1219 | a stretch of the log parses to one row per entry, or fails exactly when some unlock cannot be printed |
| Paging.AskPage | src/api/soroban-client.ts:1189-1221 | one request: its page's rows are added and the read goes on, or it ends for want of an answer, of a new cursor or of readable events |
| Paging.ReadPages | src/api/soroban-client.ts:1183-1222 | the loop gives what its requests come to, up to the first after which the read cannot go on, has a thousand rows or has made twenty requests |
| Paging.ReadIsWindow | src/api/soroban-client.ts:1183-1222 | against a server of one log the rows are one contiguous window from the start ledger, at most 1199; the read throws only on a window that cannot be parsed |
| Paging.ReadReachesEnd | src/api/soroban-client.ts:1183-1221 | the window stops short of the end of the log only with a thousand rows or after twenty requests |
| Paging.FruitfulReadReachesEnd | src/api/soroban-client.ts:1183-1221 | with pages full enough that twenty hold a thousand rows, only with a thousand rows |
| Paging.UnreachableIffUnanswered | src/api/soroban-client.ts:1189-1196 | the read is given up exactly when a request it made had no answer |
| Paging.StartsADayBack | src/api/soroban-client.ts:1029-1183 | a read starts 17280 ledgers before the latest one, or at ledger 1 |
| Paging.LastDayIsRead | src/api/soroban-client.ts:1183-1222 | a complete read has exactly the events of the last 17280 ledgers |
| Paging.EventReader.FetchContractEvents | src/api/soroban-client.ts:1149-1234 | a fresh memory cache as it is; otherwise what the network read gives, cached in memory and, if the write succeeds, on disk, which is the window from the start ledger; unexpired disk rows exactly when the network read gives nothing |
| Replay.ReplayLoop | src/api/soroban-client.ts:1463-1499 | the replay loop computes the fold of the events |
| Replay.AggregateVaultsFromEvents | src/api/soroban-client.ts:1420-1588 | filter, sort, replay, complete with records and sort newest first |
| ReplayRefinement.ReplayRefinesContract | src/api/soroban-client.ts:1426-1499 | replaying any window of any run's log gives exactly the owner's vaults created in it, completed by any records, and without a record as on chain at the window's end |
| ReplayRefinement.AccumRow | src/api/soroban-client.ts:1524-1581 | what a record makes of a replayed vault, field by field: balance, unlock and creation time, name and status |
| ReplayRefinement.StatusIsNeverLate | src/api/soroban-client.ts:1557-1561 | never locked once the chain says unlocked, and unlocked at most 86399 seconds early for 2020 to 2100 |
| ReplayRefinement.UnlockShownMeans | src/api/soroban-client.ts:1489-1492 | the replayed unlock is never later, and is the right midnight exactly for printable years |
| ReplayRefinement.SnapshotDecidesStatus | src/api/soroban-client.ts:1524-1561 | an unpaid vault's row has the right status at all times exactly when its record does not say withdrawn and the unlock time it is given, the record's if it has one, is the current one |
| ReplayRefinement.UnreadableUnlockIsReachable | src/api/soroban-client.ts:1068 | one vault with an unlock past the last JavaScript date makes reading the log fail |
| ReplayRefinement.FarUnlockReadsAsUnknown | src/api/soroban-client.ts:1457-1458 | an unlock in 2101 reads back as 0 |
| ClientView.FetchedRowsRefineContract | src/api/soroban-client.ts:1420-1427 | rows fetched between any two positions of the log and replayed are the owner's vaults created since the first, as they stood when the log ended at the second |
| ClientView.RowsAreCurrent | src/api/soroban-client.ts:1420-1427 | when the read reached the end of the log they are the owner's vaults as they stand now |
| ClientView.FiveRequestsSuffice | src/api/soroban-client.ts:1183-1221 | a server whose pages give two hundred rows each is asked at most five times |
| ClientView.SixRequestsSuffice | src/api/soroban-client.ts:1183-1221 | a server of the published log whose pages are full up to the last is asked at most six times, also when the last page carries a cursor |
| Dashboard.DashboardShowsChain | src/api/soroban-client.ts:1739-1899 | from the network to the composed list: a read of fewer than a thousand rows and twenty requests lists the owner's vaults created since the start ledger as they stand on chain now, each once; without a record exactly those whose replayed row has an unlock and a creation time |
| Dashboard.LastDayIsListed | src/api/soroban-client.ts:1183-1222 | every vault created in the last 17280 ledgers is among those the list shows |
| Dashboard.PrintableIsListed | src/api/soroban-client.ts:1776-1848 | without a record a vault unlocking in 2020 to 2100 is listed, one unlocking before 2020 never is |
| Dashboard.SimulatedListShowsChain | src/api/soroban-client.ts:1676-1700 | with simulation the list has each of the owner's vaults as it is on chain in every reachable state, whatever the records say, and nothing else without a record; only a vault created at second 0 needs a record |
| ConcreteReads.LimitDropsTheNewest | src/api/soroban-client.ts:1183-1222 | of a log of more than a thousand events a full-paged read has the first thousand and no more |
| ConcreteReads.NewestWithdrawalIsDropped | src/api/soroban-client.ts:1183-1222 | a run of 1001 events after which a paid-out vault is shown as not withdrawn with everything in it |
| ConcreteReads.FarVaultIsNotListed | src/api/soroban-client.ts:1833-1846 | a vault unlocking in 2101 is on chain and fetched, and the list is empty |
| ClientView.FetchedCreatesOnce | src/api/soroban-client.ts:895-897 | fetched rows of the contract's log have at most one create per vault |
| VaultList.LiveRowsIds | src/api/soroban-client.ts:1787-1848 | a live row survives sanitising exactly when it is real or the backend has a record of it |
| VaultList.RealRowIsKept | src/api/soroban-client.ts:1787-1792 | a row with its times is left alone; a missing creation time comes from the record |
| VaultList.RescuedRow | src/api/soroban-client.ts:1794-1823 | a row without its times is rebuilt from a record with a snapshot, field by field |
| VaultList.UnrescuedRow | src/api/soroban-client.ts:1826-1836 | without a snapshot it is archived and empty |
| VaultList.SanitisedLooksZeroIff | src/api/soroban-client.ts:1776-1835 | a sanitised row still has uninitialised times exactly when its snapshot is used, not archived, and lacks them |
| VaultList.ZeroRowCanSurvive | src/api/soroban-client.ts:1794-1822 | a record with a balance but no unlock time yields a row unlocked in 1970 |
| VaultList.BuildArchivedOverlay | src/api/soroban-client.ts:765-839 | the overlay loop yields one terminal row per uncovered record, and the list of stale records to dismiss |
| VaultList.OverlayRowIs | src/api/soroban-client.ts:765-838 | the row of an uncovered record, field by field |
| VaultList.OverlayIsTerminal | src/api/soroban-client.ts:785-823 | overlay rows are only archived or withdrawn |
| VaultList.OverlayHealsItself | src/api/soroban-client.ts:811-823 | after the dismissals, rebuilding gives the same rows and dismisses nothing |
| VaultList.ListHealsItself | src/api/soroban-client.ts:1787-1899 | after the dismissals the same live rows give the same whole list and dismiss nothing |
| VaultList.TiedRowsKeepOrder | src/api/soroban-client.ts:1892-1898 | rows the comparator does not tell apart keep their order, live rows before overlay rows |
| VaultList.ListVaults | src/api/soroban-client.ts:1739-1899 | simulation wins over events over cache; sanitised live rows and overlay, sorted |
| ListTruth.ListedStatusIsTrueIff | src/api/soroban-client.ts:765-839 | a listed vault has its status on chain exactly when the row read for it, real or rescued by its record, leads to it, or it was not read, is withdrawn, and its record says so or still says live |
| ListTruth.RescuedStatusIff | src/api/soroban-client.ts:1800-1808 | a rescued row has an unpaid vault's status at all times exactly when the record's unlock time is the vault's and it says neither withdrawn nor archived |
| ListTruth.ReplayedReadIsTrueIff | src/api/soroban-client.ts:1557-1561 | a replayed row is true exactly when it has an unlock and a creation time and the moment is not between the unlock time shown and the real one |
| ListTruth.UnreadVaultIsListedWithdrawn | src/api/soroban-client.ts:811-823 | a record without a live row is dismissed exactly when it says live, and its vault is then listed as withdrawn and empty |
| ListTruth.ReadVaultIsShown | src/api/soroban-client.ts:1787-1848 | a record with a live row is not dismissed, and the row is shown |
| ListTruth.RecordedRowIsShown | src/api/soroban-client.ts:1776-1787 | a row replayed with a record that has an unlock time is listed as it is |
| ListTruth.ListingsKeepUnlock | src/api/soroban-client.ts:1857-1868 | over any number of listings, with and without the vault among the live rows, the stored unlock time is the one last got from elsewhere than the record |
| ListTruth.ListingsWithdrawIff | src/api/soroban-client.ts:811-823 | and the record of an unpaid vault says withdrawn exactly when what it last got said so or a listing since missed the vault while the record said live; otherwise its balance is the one last got |
| ListTruth.StatusAfterListings | src/api/soroban-client.ts:1524-1561 | after any number of listings a replayed unpaid vault has the right status at all times exactly when what its record last got is the current unlock time and not withdrawn, and no listing since missed it while live |
| ListTruth.OneMissIsForGood | src/api/soroban-client.ts:811-823 | one miss of a record that is right in every respect, and until a row from elsewhere overwrites it every later listing shows the unpaid vault as withdrawn and empty |
| VaultList.ListComposition | src/api/soroban-client.ts:1787-1899 | each id at most once, exactly the known or real ids, archived rows anchored and last, each group newest first |
| VaultList.Summarise | src/api/soroban-client.ts:1603-1630 | the loop's totals are the fold of the rows, and active plus completed is their number |
| VaultList.TotalsAre | src/api/soroban-client.ts:1603-1630 | each sum is that of the rows of its status, and the counts are theirs |
| VaultList.SummaryIgnoresOverlay | src/api/soroban-client.ts:1603-1619 | money totals depend only on live rows; overlay rows only count as completed |
| VaultList.SnapshotWriter.Push | src/api/soroban-client.ts:527-561 | a withdrawn vault's snapshot is sent at most once a session, any other every time |
| VaultList.SnapshotWriter.WriteBack | src/api/soroban-client.ts:1857-1868 | every shown live row with real values has been sent, and nothing is sent that is not the snapshot of one |
| History.FetchArchivedCreateEvents | src/api/soroban-client.ts:888-932 | one reconstructed create row per record without a live create |
| History.AllTransactions | src/api/soroban-client.ts:2475-2485 | own live rows and reconstructed rows, sorted newest first |
| History.HistoryComplete | src/api/soroban-client.ts:888-932 | exactly one create row per known vault, precisely when no record names a vault created by someone else |
| History.ForeignRecordHasNoRow | src/api/soroban-client.ts:906-915 | one record of someone else's vault, which then has no create row |
| History.HistoryCreates | src/api/soroban-client.ts:2475-2485 | the history is newest first, and how many create rows it has for any id |
| History.HistoryKeepsRows | src/api/soroban-client.ts:2475-2485 | every row of the owner that was read is in the history as often as it was read, nobody else's is, and all else is reconstructed from a record with its date |
| WritePipeline.Poll | src/api/soroban-client.ts:222-267 | polls up to thirty times, emits the receipt of the first decisive answer or a pending one |
| WritePipeline.SignTransaction | src/api/soroban-client.ts:136-206 | everything before sending: effects and signature, and at that point all that was allocated holds zeros only |
| WritePipeline.InvokeContract | src/api/soroban-client.ts:136-268 | effects and result for every combination of answers; nothing allocated on the way keeps a byte of the secret |
| WritePipeline.LoadAndSign | src/api/soroban-client.ts:190-201 | the signature is that of the seed; whether signing works or not, the key pair and everything else allocated holds zeros only |
| WritePipeline.SignOnce | src/api/soroban-client.ts:196-201 | the signature is that of the key pair's secret; however signing ends, both copies of the secret are zero and forgotten |
| WritePipeline.ReceiptMatchesOutcome | src/api/soroban-client.ts:214-268 | no receipt unless submitted and not refused, then exactly one whose status matches how the call ends |
| WritePipeline.OutcomeIsFirstDecisive | src/api/soroban-client.ts:223-257 | the first decisive answer among thirty polls fixes the outcome and ends the polling |
| WritePipeline.TimeoutIffUndecided | src/api/soroban-client.ts:258-267 | a timeout is reported exactly when no poll was decisive |
| WritePipeline.EarlyEndings | src/api/soroban-client.ts:136-206 | each ending before sending, and exactly when it is the ending |
| WritePipeline.LateEndings | src/api/soroban-client.ts:207-268 | each ending of a signed transaction, and exactly when it is the ending: a value exactly for a submitted one whose first decisive poll is a success |
| WritePipeline.PollsMade | src/api/soroban-client.ts:222-257 | how many polls are made |
| WritePipeline.WipedBeforeSending | src/api/soroban-client.ts:190-210 | the signer is wiped whenever used, before anything is sent, and not used again; what is sent carries the signature of the wallet's seed |
| Utf8.Utf8ToMutableBytes | src/security/secure-wipe.ts:163-191 | never writes outside its buffer, returns a fresh copy of exactly the encoding; the buffer keeps the same bytes |
| Utf8.RoundTripIffWellFormed | src/security/secure-wipe.ts:163-191 | a strict UTF-8 decoder gives the string back exactly when it has no unpaired surrogate |
| Words.WordsFromBytes | src/notebook/crypto.ts:115-126 | the loop packs four bytes a word, most significant first |
| Words.PackRoundTrip | src/notebook/crypto.ts:115-126 | unpacking as many bytes as were packed gives them back; padding is zero |
| SecureWipe.WipeWordArray | src/security/secure-wipe.ts:96-108 | all words and the byte count are zero |
| SecureWipe.WipeBytes | src/security/secure-wipe.ts:67-72 | all bytes are zero |
| SecureWipe.WipeKeypair | src/security/secure-wipe.ts:125-151 | both secret arrays are overwritten where they are and forgotten |
| KeyCache.Cache.SetActiveWalletForCrypto | src/notebook/crypto.ts:82-96 | a different seed drops and wipes the cached key; the same seed keeps it |
| KeyCache.Cache.DeriveKey | src/notebook/crypto.ts:173-202 | the key is derived from the packed seed; of everything allocated only the key and the encoder's buffer are not zero on return, also when derivation throws |
| KeyCache.Cache.GetKey | src/notebook/crypto.ts:162-210 | the cached key, or else that of the active wallet's whole seed, or without one the device key, word for word; it becomes the cached key, and nothing else allocated is left but the encoder's buffer |
| KeyCache.Cache.ResetKeyCache | src/notebook/crypto.ts:221-225 | the key is forgotten and wiped |
| KeyCache.RunOps | src/notebook/crypto.ts:82-225 | after any sequence of calls each key asked for was what deriving afresh gives, the cache holds what the calls leave, and every array handed out is the cached one or wiped, which one being fixed by the calls |
| KeyCache.HotIff | src/notebook/crypto.ts:82-225 | a key is held exactly when some call gave one and no later call reset the cache or changed the seed |
| KeyCache.AnswerIsOfWallet | src/notebook/crypto.ts:162-208 | a key given is derived from the whole seed of the wallet set last, in UTF-8 and packed, or is the device's without a wallet or seed |
| KeyCache.WalletIsLastSet | src/notebook/crypto.ts:82-96 | the wallet is the one the last change set |
| Hkdf.HkdfSha256 | src/security/biometric.ts:220-245 | exactly `length` significant bytes, those of extract-then-expand in sections 2.2 and 2.3 of RFC 5869 |
| Hkdf.ShorterIsPrefix | src/security/biometric.ts:242-244 | a shorter output is a prefix of a longer one |
| Envelope.Encrypt | src/notebook/crypto.ts:232-253 | packs the vector and writes base64(iv), a dot and base64(ciphertext) |
| Envelope.EnvelopeRoundTrip | src/notebook/crypto.ts:255-267 | decrypting what was encrypted gives the text back |
| Envelope.EnvelopeIsRecognised | src/notebook/crypto.ts:274-281 | the probe accepts every envelope that encryption produces |
| Envelope.ProbeIff | src/notebook/crypto.ts:274-281 | the probe accepts exactly 32 or more characters with one dot, eight before it and some after, all else base64 |
| Envelope.NoEnvelopeIsEmpty | src/notebook/crypto.ts:256 | text without a dot decrypts to nothing |
| Envelope.Base64RoundTrip | src/notebook/crypto.ts:252-260 | base64 decoding undoes encoding for every length |
| Envelope.PadBitsAreZero | src/notebook/crypto.ts:252-253 | the encoding is the canonical one of section 3.5 of RFC 4648 |
| SessionKeystore.Keystore.GetWalletSeed | src/security/session-keystore.ts:144-182 | cache, then authenticated read, then legacy read with migration; touches and notifies on success |
| SessionKeystore.Keystore.SetWalletSeed | src/security/session-keystore.ts:190-219 | authenticated write, else plain write, else nothing; caches on success |
| SessionKeystore.Keystore.LockNow | src/security/session-keystore.ts:250-258 | empties the cache entry by entry and notifies if it held anything |
| SessionKeystore.Keystore.OnAppState | src/security/session-keystore.ts:322-346 | notes leaving the foreground; on return locks after a long stay or long inactivity |
| SessionKeystore.CachedIsStored | src/security/session-keystore.ts:144-238 | over every run each cached seed is the one stored for its wallet |
| SessionKeystore.ReadGivesStored | src/security/session-keystore.ts:144-182 | a read gives the seed stored for the wallet, exactly when there is one and it is cached or released |
| SessionKeystore.WrittenIsRead | src/security/session-keystore.ts:190-219 | a seed written successfully is what is read next |
| SessionKeystore.RemovedStaysGone | src/security/session-keystore.ts:225-232 | after a removal nothing is stored or cached, and no read finds a seed until one is written again |
| SessionKeystore.DropEmptiesSlot | src/security/session-keystore.ts:234-238 | a drop empties the wallet's slot and changes nothing else |
| SessionKeystore.StepMigrates | src/security/session-keystore.ts:160-207 | a wallet is migrated from its first authenticated write until it is removed |
| SessionKeystore.ResumeLocksIff | src/security/session-keystore.ts:331-343 | becoming active keeps the cache exactly when a seed was used and the app last left both under five minutes ago |
| SessionKeystore.StayIsCountedFromTheLastReport | src/security/session-keystore.ts:327-330 | a stay of over five minutes since first leaving can keep the cache |
| SessionKeystore.QuietStayLocks | src/security/session-keystore.ts:331-343 | but any five-minute stay in which no seed is used locks |
| SessionKeystore.NotifiesOnFlip | src/security/session-keystore.ts:100-108 | a call notifies exactly when it locks or unlocks, except when dropping or removing the last wallet |
| SessionKeystore.ParityTellsLockState | src/security/session-keystore.ts:250-266 | over any run the number of notifications is odd exactly when unlocked, off by one per silent lock |
| SessionKeystore.ParityTellsAllWithoutRemovals | src/security/session-keystore.ts:250-266 | over runs that never drop or remove a wallet it is odd exactly when unlocked |
| StableSort.SortSorts | src/api/soroban-client.ts:1893-1898 | sorting with a total preorder sorts |
| StableSort.SortKeepsTies | src/api/soroban-client.ts:1429 | sorting keeps the order of values the comparator does not tell apart |

## Left out

- Network, storage backends, RPC failover and SDK decoding: answers are parameters.
- `mergeVaults` and the vault cache module are not part of this model; any merge function is allowed, and the list
  composition asks only that the merged live rows have distinct ids.
- Floating-point XLM amounts: integer stroops instead. Times are exact; `Number` rounds those beyond 53 bits.
- AES, PBKDF2, HMAC, ed25519 and random bytes: arbitrary functions; no secrecy is claimed.
- `wakeUpVault`, entry time-to-live, `recheckTransaction`, `getVault`, `vaultTransactions` and the hydration of local
  records: they depend on responses of the SDK or repeat paths modelled here.
- Token trustlines, account reserves and freezing: the token refuses only by amount.
- Minting and burning during a run: the supply is fixed and fits 128 bits.
- Row fields that only decorate: description, template and target amount.
- The second, delayed pass of `wipeBytes`, and engine-internal copies of strings.
- Interleaving of asynchronous calls in the key cache and the keystore.
- Error texts, biometric prompts, enrolment and Horizon reads.
