# A verified model of the air-quality ingestion core

The project models the ingestion engine that turns provider payloads into hourly readings, merges them into a shared
table, keeps station identities, meters providers and coordinates workers, together with three small structures that
serve the results. Every statement below holds for all inputs, all tables and all runs; `dafny verify dfyconfig.toml`
checks the whole project.

A table is a map from keys to rows, one SQL statement is one atomic step, an hour is a multiple of 3600 seconds, and a
column that is NULL is a column missing from its row's map. Code that changes state step by step is a class or a method
with loops (`Database`, `ExtractStats`, `DatabaseService`, `LeaseManager`, `PostgresQuota`, `SlidingWindowLimiter`,
`BoundedBlobCache`, the manifest and temporal loops), proved equal to a specification function; the theorems are about
those functions. Code made of expressions is functions.

| Files | What they model |
|---|---|
| `Columns`, `Readings`, `Strings`, `Prelude` | columns, values (finite, NaN and infinite numbers, text), rows, keys; whitespace and UTF-8 |
| `Validation` | quarantine of bad fields, flags, the QC state machine |
| `Reconcile`, `ReadingsDb` | the specification of one call, without batches; the batched implementation of it |
| `ReconcileTheorems`, `ReconcileUndo`, `ReconcileReplay`, `ReconcileHistory`, `ReconcileFlags`, `ReconcileDocs` | what one call and whole histories of calls keep |
| `Temporal`, `TemporalTheorems`, `TemporalProvenance`, `TemporalTrace`, `TemporalRows`, `Extract` | payload to hourly rows, shifts and overlaps, provenance, the validation loop |
| `Identity`, `Stations`, `StationTheorems`, `StationUpdates` | station metadata and station identity resolution |
| `Leases`, `Quota` | fenced leases and two-level request budgets under every interleaving |
| `Manifest` | liveness of stations over sequences of discovery runs |
| `RateLimit`, `FileCache`, `Keyset`, `Cursor`, `Pagination` | the sliding-window limiter, the bounded file cache, keyset pages, their cursor, and walks whose cursors travel as text |
| `BatchQc`, `BatchQcTheorems` | segmentation and outlier rules of the published package |

## Where the code and what it says differ

- The stored readings are last-non-null-wins over calls, but duplicates inside one call are first-non-null-wins, and a
  withdrawal beats every supply of the same call; `OneCallAgreesIff` says exactly when the two agree.
- Exact replay is a no-op unless a row supplies a value for a field it withdraws, or a unit for one while the stored row
  holds a withdrawn field; `ExactReplay` gives the exact condition row by row. That each row keeps the two apart on its
  own is not enough when duplicates are merged (`MergedKeepsApart`, `DuplicatesBreakReplay`).
- The replay of a clean call logs nothing unless a dropped pollutant code contradicts the stored one or a value has
  another type than its column, such as a number supplied as text (`ReplayLogsNothingIff`). Such rows are logged again by
  every call that changes nothing (`StrayCodeIsLoggedAgain`, `TextNumberIsLoggedAgain`).
- A value that no column takes (a NaN or infinite number, or text where a number belongs that does not parse) makes the
  whole call raise and leave the table as it was (`ReconcileAndUpsert`). Statements about histories and replays are about
  calls that return.
- A revision is logged before unknown pollutant codes are dropped, values are cast and withdrawals run, so a logged
  value need not be stored (`LoggedIsStoredIff`); the old values still undo every change (`RevisionsUndo`).
- "Current wins" at the anchor hour holds for streams whose history is shifted by the overlap. Under the station policy
  weather history is not shifted, and it overwrites current weather (`StationHistoryWeatherWins`).
- "Reversed without a refetch": in every row the recorded source hour plus the recorded shift is the hour of the row
  exactly when current weather is floored to the hour or already on it (`ShiftIsReversible`), as under both registered
  policies. That does not make them the source and shift of the values: when a history entry is shifted onto an hour
  where a current reading of its kind sits, its values replace the current ones and the row keeps the current source,
  unshifted (`ValueTracesIff`). Under the registered policies this happens to city weather off the anchor hour and to
  nothing else (`RegisteredTracesIff`, `CityWeatherIsMisnamed`).
- The QC rules heal a row that raw validation marked INVALID, but not when the row also carries a flag of other origin:
  then it counts as marked by another QC from that reading on (`ForeignFlagSticks`,
  `ForeignFlagBlocksHealing`). Otherwise flags and state follow
  the rules from any unprotected row (`FlagsFromAnyRow`).
- "Nothing may create a second row for the same physical device": a native id is not recorded on a row that was stored
  without one, so a later move of that device creates a second row (`MovedDeviceIsSplit`); `NativeRecordedIff` and
  `SecondUpsertFindsFirst` say exactly when. A rename can give two family rows one native id (`UniqueStep` says exactly
  when), but only for a discovering provider outside the family. The shipped setting includes `airvisual`, the one
  provider that passes the listed names, so it takes another caller or a setting that leaves `airvisual` out
  (`OutsiderJoinsTwo`).
- An hour limit that is not zero grants one slot even when it is negative (`NegativeHourLimit`); a minute limit is at
  least one.
- Leases are safe because holder ids are fresh, not because of fences: release deletes the row and the fence restarts
  (`StaleIsPowerless`, `ReusedHolderRevives`).
- The limiter's sweep throws away live keys when more than 50,000 are tracked. `AdmittedIff` gives every decision on every
  trace, `WrongIff` the exact calls that are admitted wrongly, at the sweep or any time later, and
  `CrowdedSweepAdmitsWrongly` a trace that gets there.
- `max_files = 0` makes the cache return a path it has just unlinked (`ReturnedPathIsMapped`).
- The cursor strips its key, so the round trip is exact only for keys without surrounding whitespace (`RoundTripIff`), and
  a key that strips to another row's key loses that row from the walk (`CursorReturnsIff`, `StrippedKeyIsSkipped`).

## Model

| member | source | states |
|---|---|---|
| Validation.FlagNamesItsField | apps/api/app/ingestion/validation.py:148-152 | A validation flag built for a field names that field and no other, whatever the reason text |
| Validation.FlagTextInjective | apps/api/app/ingestion/validation.py:77-78 | Flags of two different fields are never the same text |
| Validation.ValidateReading | apps/api/app/ingestion/validation.py:88-136 | The loop nulls, quarantines and flags exactly the failing fields (with the unit of a failing pollutant) and rejects exactly missing, future and too old timestamps |
| Validation.QuarantineFields | apps/api/app/ingestion/validation.py:110-129 | The loop over the numeric fields leaves the row without the quarantined fields and their units, and one flag per quarantined field |
| Validation.MergeQcIdempotent | apps/api/app/ingestion/validation.py:155-177 | Meeting the same incoming flags and fields again changes neither state nor flags |
| Validation.FaultReasons | apps/api/app/ingestion/validation.py:110-125 | Each reason is given for exactly its own kind of failure |
| Validation.PhysicalRanges | apps/api/app/ingestion/validation.py:34-60 | The range in which each measured field is sane |
| Validation.MergedFlag | apps/api/app/ingestion/validation.py:168-177 | Incoming flags are all kept; a stored flag goes only from an unprotected row that is supplied its field; the state follows the flags that remain |
| Validation.ProtectedStatesSurvive | apps/api/app/ingestion/validation.py:172-175 | A curated state and an INVALID set by something other than raw validation are kept, with exactly the stored and the incoming flags |
| Reconcile.KeyOrder | apps/api/app/ingestion/reconcile.py:111-118 | The dictionary order of dedupe: each key once, exactly the keys of the rows |
| Reconcile.Dedupe | apps/api/app/ingestion/reconcile.py:109-137 | One row per distinct hour key, in order of first occurrence |
| Reconcile.TableAfterAt | apps/api/app/ingestion/reconcile.py:235-243 | In a call with distinct keys each row of the table depends on its own incoming row only |
| Reconcile.TableAfterElsewhere | apps/api/app/ingestion/reconcile.py:235-243 | Keys no row mentions are left alone |
| Reconcile.WithdrawNext | apps/api/app/ingestion/reconcile.py:329-334 | Running one more withdrawal replaces exactly that row by its state after the call |
| ReadingsDb.Database.DedupeRows | apps/api/app/ingestion/reconcile.py:109-137 | The dictionary loop computes the merge of all rows of each key, in order of first occurrence |
| ReadingsDb.Database.PrepareBatch | apps/api/app/ingestion/reconcile.py:302-316 | The loop over a batch yields the QC of every row, the revisions and the withdrawal queue that the specification names |
| ReadingsDb.Database.ExecUpsert | apps/api/app/ingestion/reconcile.py:218-245 | The COALESCE upsert touches exactly the rows in which something is distinct, leaves other keys alone, and does nothing when it refuses a value |
| ReadingsDb.Database.RunBatch | apps/api/app/ingestion/reconcile.py:294-327 | One batch extends the specified table, revisions, queue and counts by exactly its rows, or is refused |
| ReadingsDb.Database.Tally | apps/api/app/ingestion/reconcile.py:320-327 | Touched and pre-existing rows are counted as the specification counts them |
| ReadingsDb.Database.DrainWithdrawals | apps/api/app/ingestion/reconcile.py:329-340 | The queue loop runs the jobs in order, with their revisions and field count |
| ReadingsDb.Database.ReconcileAndUpsert | apps/api/app/ingestion/reconcile.py:280-344 | For every batch size from one up, the call raises and changes nothing exactly when some row has a value no column takes, and otherwise table, revision log and counts are those of a one-shot specification without batches |
| ReadingsDb.RunJobsIsWithdrawal | apps/api/app/ingestion/reconcile.py:329-340 | Draining the queue after all upserts equals withdrawing row by row, although the queue was filled batch by batch |
| ReadingsDb.BatchIsNew | apps/api/app/ingestion/reconcile.py:294-300 | What a batch selects is what the table held before the call: earlier batches never touch its keys |
| ReconcileTheorems.DedupeFirstWins | apps/api/app/ingestion/reconcile.py:110-131 | A merged column is present iff some row supplies it, and then has the value of the first one |
| ReconcileTheorems.DedupeUnions | apps/api/app/ingestion/reconcile.py:127-134 | Flags, withdrawals and supplied fields of duplicates are united |
| ReconcileTheorems.DedupeKeepsFirst | apps/api/app/ingestion/reconcile.py:123-131 | Of duplicates the first raw document and the first source stay |
| ReconcileTheorems.DedupeState | apps/api/app/ingestion/reconcile.py:135-136 | A merged row with a flag is INVALID; a row without duplicates keeps its state |
| ReconcileTheorems.EveryRowCounted | apps/api/app/ingestion/reconcile.py:320-327 | inserted + updated + unchanged is the number of deduplicated rows |
| ReconcileTheorems.TableGrowsByInserted | apps/api/app/ingestion/reconcile.py:320-327 | The table holds the old and the mentioned keys and grows by exactly rows_inserted |
| ReconcileTheorems.NextColumn | apps/api/app/ingestion/reconcile.py:226-239 | One column after a call: NULL if withdrawn, else the new value, else the old one |
| ReconcileTheorems.FiresIff | apps/api/app/ingestion/reconcile.py:248-263 | A withdrawal changes the row iff it pre-existed and a withdrawn field holds a value after the upsert |
| ReconcileTheorems.RowOfKey | apps/api/app/ingestion/reconcile.py:280-344 | The row of a key after a call is its old row merged with all incoming rows of that key |
| ReconcileTheorems.NothingLost | apps/api/app/ingestion/reconcile.py:280-284 | No row disappears, `source` never changes, and a value becomes NULL only by a withdrawal that names it |
| ReconcileDocs.NewRow | apps/api/app/ingestion/reconcile.py:182-185 | A new row takes the raw document as it comes and its source from the row before the policy |
| ReconcileDocs.DocAfter | apps/api/app/ingestion/reconcile.py:239-243 | Under each name a touched row takes the incoming document if there is one and else keeps its own; a firing withdrawal puts its own under withdrawn; an untouched row keeps everything |
| ReconcileDocs.DocOfKey | apps/api/app/ingestion/reconcile.py:239-256 | The same for the row of a key after a whole call |
| ReconcileDocs.CloseIff | apps/api/app/ingestion/reconcile.py:140-146 | Two numbers count as the same iff they differ by no more than 1e-9, absolutely or relative to either |
| ReconcileDocs.OtherValuesDiffer | apps/api/app/ingestion/reconcile.py:140-146 | Infinities equal themselves, NaN equals nothing, and everything else is compared as it is |
| ReconcileDocs.UnlistedHeals | apps/api/app/ingestion/reconcile.py:306-306 | A row that lists no supplied fields heals the flags of exactly the revision columns it has values for |
| ReconcileDocs.ListedHeals | apps/api/app/ingestion/reconcile.py:306-306 | A row that lists them heals the flags of exactly the listed ones |
| ReconcileDocs.ProtectedIff | apps/api/app/ingestion/validation.py:172-175 | Protected are OK, SUSPECT, and INVALID beside a flag of other origin |
| ReconcileDocs.RefusedIff | apps/api/app/ingestion/reconcile.py:169-190 | A row is refused iff a stored value that is no pollutant code does not reach its column, and a row that is not loses nothing but unknown codes |
| ReconcileDocs.StorableIff | apps/api/app/ingestion/reconcile.py:53-63 | A value is refused for being a number that is not finite, or text that is no number in a measured column |
| ReconcileDocs.CodesAreNames | apps/api/app/ingestion/reconcile.py:49-49 | The pollutant codes are the names of the pollutant columns |
| Columns.UnitsName | apps/api/app/ingestion/reconcile.py:43-43 | The unit column of a pollutant is named after it |
| ReconcileUndo.AllRevisionsMember | apps/api/app/ingestion/reconcile.py:309-340 | A revision is in the list iff some row of the call caused it |
| ReconcileUndo.LoggedOldValue | apps/api/app/ingestion/reconcile.py:149-160 | Every logged old value is what the table held before the call |
| ReconcileUndo.ChangeIsLogged | apps/api/app/ingestion/reconcile.py:149-160 | A revision column that lost or changed its value beyond the tolerance is logged, with old and new value |
| ReconcileUndo.ReconciledTyped | apps/api/app/ingestion/reconcile.py:52-63 | A call keeps the types of the columns |
| ReconcileUndo.RevisionsUndo | apps/api/app/ingestion/reconcile.py:302-340 | On a typed table, putting back the old value of every revision restores every previously non-null revision column, up to the comparison tolerance |
| ReconcileUndo.LoggedIsStoredIff | apps/api/app/ingestion/reconcile.py:178-179 | A logged new value is the stored one exactly unless it was dropped as an unknown code, cast to another type or withdrawn in the same call |
| ReconcileReplay.TouchedIff | apps/api/app/ingestion/reconcile.py:241-243 | An existing row is skipped iff no supplied column and no QC value would change |
| ReconcileReplay.QcSettles | apps/api/app/ingestion/validation.py:155-177 | After a row has been reconciled its QC columns are what a replay would write, whatever was stored before |
| ReconcileReplay.ReplayRow | apps/api/app/ingestion/reconcile.py:218-263 | A replayed row is left untouched iff it supplied nothing that its own withdrawal nulls |
| ReconcileReplay.ExactReplay | apps/api/app/ingestion/reconcile.py:280-344 | A second identical call counts every row as unchanged iff every row is clean, and then leaves the table as it is |
| ReconcileReplay.CastDiffers | apps/api/app/ingestion/reconcile.py:140-146 | The comparison tells a value from what its column keeps iff their types differ |
| ReconcileReplay.ReplayRevisions | apps/api/app/ingestion/reconcile.py:149-160 | The replay of a clean row logs nothing iff no dropped value contradicts the stored one and no value has another type than its column |
| ReconcileReplay.ReplayLogsNothingIff | apps/api/app/ingestion/reconcile.py:149-160 | The replay of a clean call, withdrawals included, logs nothing iff that holds of every row |
| ReconcileReplay.SilentReplay | apps/api/app/ingestion/reconcile.py:280-344 | If no deduplicated row supplies a value or unit for a field it withdraws, the replay leaves the table, counts every row as unchanged, and logs nothing iff every row is settled |
| ReconcileReplay.MergedKeepsApart | apps/api/app/ingestion/reconcile.py:119-134 | Deduplication keeps supplied and withdrawn fields apart when no two rows of a key stand against each other |
| ReconcileReplay.DuplicatesBreakReplay | apps/api/app/ingestion/reconcile.py:119-134 | It is not enough that each row does so alone: a duplicate that withdraws what another supplies makes the replay write again |
| ReconcileReplay.StrayCodeIsLoggedAgain | apps/api/app/ingestion/reconcile.py:178-179 | main_us p3 over a stored pm25: every replay leaves the row unchanged and logs it again |
| ReconcileReplay.TextNumberIsLoggedAgain | apps/api/app/ingestion/reconcile.py:140-146 | pm25 supplied as the text 12.5 passes validation, is stored as a number, and is logged again by every replay |
| ReconcileHistory.StoredIsLastSupplied | apps/api/app/ingestion/reconcile.py:226-236 | From no row, every stored revision column, pollutant codes included, is the last value that reached it and was not withdrawn since |
| ReconcileHistory.ValidatedIsSane | apps/api/app/ingestion/validation.py:110-132 | A field survives validation iff its value is sane, unchanged, and only survivors are `present` |
| ReconcileHistory.NothingUnaccounted | apps/api/app/ingestion/validation.py:124-129 | A validated row and its quarantine are disjoint and together hold every original value |
| ReconcileHistory.ValidatedRest | apps/api/app/ingestion/validation.py:124-135 | A unit goes exactly with the failing value of its pollutant, other columns stay, and the state is INVALID iff pm25 or aqi_us fails |
| ReconcileHistory.HealsIff | apps/api/app/ingestion/validation.py:176-176 | A validated row heals the flags of exactly the fields it supplies with a sane value |
| ReconcileHistory.FlagsAreStanding | apps/api/app/ingestion/validation.py:155-177 | A flag is stored iff some reading raised it and no later one supplied a valid value for its field |
| ReconcileHistory.FlagsAreRaised | apps/api/app/ingestion/validation.py:88-136 | From no row, only flags that validation raises are ever stored |
| ReconcileHistory.InvalidIffPrimaryStands | apps/api/app/ingestion/validation.py:139-141 | From no row, the state is INVALID iff a standing flag names pm25 or aqi_us, and raw otherwise |
| ReconcileHistory.ValidatedHistory | apps/api/app/ingestion/validation.py:88-177 | Over every history of validated readings at one key: last sane value stored, flags exactly the standing ones, INVALID iff a primary one stands |
| ReconcileHistory.ProtectedSurvives | apps/api/app/ingestion/validation.py:172-175 | No history of raw readings changes a curated state or heals an INVALID of other origin; the flags are the old ones with every flag of the readings |
| ReconcileHistory.ProtectedSurvivesCalls | apps/api/app/ingestion/validation.py:172-175 | The same over every sequence of calls on the table |
| ReconcileFlags.FlagsRunMeaning | apps/api/app/ingestion/validation.py:176-176 | What readings leave of given flags: the old ones never healed, and those raised and not healed since |
| ReconcileFlags.RaisedSinceIsStanding | apps/api/app/ingestion/validation.py:155-177 | For the flags of validation, raised and not healed since means standing in the history of readings |
| ReconcileFlags.FlagsFromAnyRow | apps/api/app/ingestion/validation.py:155-177 | From any unprotected row, or none, the stored flags are those and decide the state, as long as no reading but the last leaves it INVALID beside a flag of other origin |
| ReconcileFlags.ForeignFlagSticks | apps/api/app/ingestion/validation.py:174-175 | Once one does, the row stays INVALID with those flags through every further reading |
| ReconcileFlags.ForeignFlagBlocksHealing | apps/api/app/ingestion/validation.py:174-175 | A concrete row and two readings, a bad and a good pm25, after which the row is still INVALID for the bad one |
| ReconcileFlags.ValidatedHistoryFrom | apps/api/app/ingestion/validation.py:88-177 | The same over every sequence of calls on the table |
| ReconcileHistory.OneCallAgreesIff | apps/api/app/ingestion/reconcile.py:109-137 | One call with many readings and one call per reading leave the same in every revision column iff the first and last supplied values come to the same there, or, when a stored field is withdrawn, iff no supply of it is held to the end |
| Temporal.ExtractRows | apps/api/app/ingestion/temporal.py:140-252 | The bucket loops emit the rows of the specified buckets |
| Temporal.EmitRows | apps/api/app/ingestion/temporal.py:238-252 | One row per bucket, in order of time |
| Temporal.AddHistory | apps/api/app/ingestion/temporal.py:192-236 | One turn of a history loop: skipped, filled into the anchor hour, or shifted and merged |
| Temporal.MergeFields | apps/api/app/ingestion/temporal.py:129-137 | The field loop overwrites with what it is given, or fills only what is empty and marks it |
| Temporal.Sorted | apps/api/app/ingestion/temporal.py:239-239 | Bucket hours strictly ascending, each once |
| TemporalTheorems.AddAllMeaning | apps/api/app/ingestion/temporal.py:190-236 | After any list of history entries a column is the last value that landed on the hour, else the old one, else the first overlap value |
| TemporalTheorems.ColumnMeaning | apps/api/app/ingestion/temporal.py:140-252 | For every payload and policy, each measured column of each hour is given by that rule |
| TemporalTheorems.NothingLandsOnAnchor | apps/api/app/ingestion/temporal.py:187-209 | When the shift is one hour and the tolerance below an hour, only overlap entries reach the anchor hour |
| TemporalTheorems.CurrentWins | apps/api/app/ingestion/temporal.py:200-208 | At the anchor hour the current value wins and the first overlap value fills what it lacks |
| TemporalTheorems.AnchorStart | apps/api/app/ingestion/temporal.py:163-172 | Before history the anchor hour carries exactly the pollution fields of the current reading |
| TemporalTheorems.WeatherStart | apps/api/app/ingestion/temporal.py:175-183 | Before history the hour of current weather, or the anchor when it has no timestamp, carries exactly its weather fields |
| TemporalTheorems.StationHistoryWeatherWins | apps/api/app/ingestion/temporal.py:225-233 | Under the station policy the last weather history entry of an hour overwrites current weather |
| TemporalTheorems.FilledExactly | apps/api/app/ingestion/temporal.py:129-137 | The filled marks gain exactly the empty fields that an overlap entry supplies |
| TemporalTheorems.FilledMarksFilled | apps/api/app/ingestion/temporal.py:129-137 | At every hour the marks are exactly the pollution and weather fields that are empty before history and that the overlap supplies; none elsewhere |
| TemporalTheorems.ProvFromIsFilled | apps/api/app/ingestion/temporal.py:246-247 | prov.from of every emitted row names exactly those fields, under every policy shaped like the registered two |
| TemporalTheorems.RegisteredAreRegular | apps/api/app/ingestion/temporal.py:34-47 | Both registered policies are of that shape |
| TemporalProvenance.FillKeepsHours | apps/api/app/ingestion/temporal.py:200-208 | Filling from the overlap produces the same hours, with the same p/w sources and shifts, as skipping it |
| TemporalProvenance.FillExtendsSkip | apps/api/app/ingestion/temporal.py:200-208 | Every value produced when skipping the overlap is produced when filling from it |
| TemporalProvenance.ShiftIsReversible | apps/api/app/ingestion/temporal.py:140-252 | floor(src_ts) + shift_h is the row hour for the same streams in every row, iff current weather is floored or on the hour |
| TemporalTrace.StreamAll | apps/api/app/ingestion/temporal.py:207-236 | The first entry to set a source or shift of a stream wins, and a landing sets what is not set |
| TemporalTrace.ValueTracesIff | apps/api/app/ingestion/temporal.py:4-11 | For every payload and policy, a value has the shift and source hour of its own entry recorded iff the entry is unshifted or no current reading of its kind sits at the hour |
| TemporalTrace.RegisteredTracesIff | apps/api/app/ingestion/temporal.py:44-47 | Under the registered policies every value does, except city weather shifted onto the hour of current weather |
| TemporalTrace.CurrentIsRecorded | apps/api/app/ingestion/temporal.py:171-183 | Where a current reading sits, the row names its own timestamp, unshifted, whatever history lands there |
| TemporalTrace.CityWeatherIsMisnamed | apps/api/app/ingestion/temporal.py:232-236 | A concrete city payload whose 09:00 row holds the humidity of 08:00 and names 09:00 as its source |
| TemporalTrace.OverlapTraces | apps/api/app/ingestion/temporal.py:201-208 | A value that only the overlap gave sits at the anchor hour and names an overlap entry, with a one-hour overlap the hour before |
| TemporalProvenance.RowsInOrder | apps/api/app/ingestion/temporal.py:239-251 | Emitted hours strictly increase, within one scope |
| TemporalRows.BucketsAreMeasured | apps/api/app/ingestion/temporal.py:98-113 | Buckets hold pollution and weather fields and nothing else |
| TemporalRows.RowHolds | apps/api/app/ingestion/temporal.py:239-243 | Every emitted row holds the values of its bucket and the unit of exactly the pollutants it has a value for |
| TemporalRows.RowNames | apps/api/app/ingestion/temporal.py:244-251 | It names its provider and policy, and carries the sources and shifts of its bucket |
| TemporalRows.OverlapsIff | apps/api/app/ingestion/temporal.py:185-188 | A history hour is the overlap iff, moved one hour on, it is within the tolerance of the anchor |
| TemporalProvenance.RowsOnHoursIff | apps/api/app/ingestion/temporal.py:150-155 | All emitted rows lie on whole hours iff current weather is floored or on the hour |
| TemporalProvenance.OffHourUntouched | apps/api/app/ingestion/temporal.py:150-155 | No history entry ever reaches a bucket that is off the hour |
| Extract.ExtractStats.NormalizeRows | apps/api/app/ingestion/extract.py:61-74 | The loop returns the accepted validated rows and counts every rejection by reason and every quarantined field |
| Extract.ExtractStats.CheckRow | apps/api/app/ingestion/extract.py:61-74 | One row: its rejection, its validated form with the quarantine kept under its provenance, and the number of quarantined fields |
| Extract.EveryRowAccounted | apps/api/app/ingestion/extract.py:61-74 | Accepted and rejected rows add up to the rows of the envelope |
| Extract.AcceptedRows | apps/api/app/ingestion/extract.py:61-74 | Accepted rows come from rows inside the time window, in the same order |
| Extract.AcceptedIsSane | apps/api/app/ingestion/extract.py:61-74 | Accepted values are sane, and with the quarantine they are the provider's row again |
| Extract.DedupeOfDistinct | apps/api/app/ingestion/reconcile.py:109-137 | Dedupe is the identity on rows with distinct hours |
| Extract.EnvelopeIsDeduped | apps/api/app/ingestion/extract.py:43-74 | For every payload whose current weather is aligned, the rows of the envelope are strictly ordered in time and already deduplicated |
| Extract.EnvelopeReplay | apps/api/app/ingestion/extract.py:43-74 | Reconciling any envelope twice writes nothing the second time, and logs nothing iff every measured value is a number and no other column meets a contradicting code or has another type |
| Identity.MergeDiscoveryMetadata | apps/api/app/ingestion/identity.py:83-97 | The two loops compute the merge specified by the next two lemmas |
| Identity.EnsureAllKeeps | apps/api/app/ingestion/identity.py:60-72 | Native ids are only appended, each once, and nothing else changes |
| Identity.MergeKeeps | apps/api/app/ingestion/identity.py:83-97 | Only discovery's own keys take incoming values; curated keys, aliases and history are untouched; native ids are united |
| Identity.MergeIdempotent | apps/api/app/ingestion/identity.py:83-97 | Merging the same discovery again changes nothing |
| Stations.RenameSource | apps/api/app/ingestion/db.py:317-337 | A rename source is the only delisted row of its site |
| Stations.DatabaseService.FindByNative | apps/api/app/ingestion/db.py:172-186 | The native-id query returns a matching row of the family, the exact provider first, or None iff there is none |
| Stations.DatabaseService.FindRenameSource | apps/api/app/ingestion/db.py:317-337 | The search returns the rename source of the specification |
| Stations.DatabaseService.UpsertStation | apps/api/app/ingestion/db.py:145-315 | Every branch computes the specified table and answer for the row the native-id query chose |
| StationTheorems.UpsertRows | apps/api/app/ingestion/db.py:271-299 | An upsert adds at most one row, under a computed id that was free, and deletes none |
| StationTheorems.UpsertFrame | apps/api/app/ingestion/db.py:145-315 | Only the answered row changes; it keeps provider, city, aliases, native ids and curated keys, and its own native id except in a rename merge |
| StationUpdates.TakesOver | apps/api/app/ingestion/db.py:198-204 | The answered row takes the discovery's name, activity, time, native id and own metadata, and its coordinates except in a rename merge, which keeps the old ones |
| StationUpdates.CityAfter | apps/api/app/ingestion/db.py:271-292 | A created row takes city, provider and native id; a refreshed one a city only when it has none; other answers leave the city |
| StationUpdates.HistoryRecords | apps/api/app/ingestion/db.py:191-197 | A move is recorded with old and new name and place and the computed id, a rename merge with old and new name and native id, and no other answer touches the history |
| StationUpdates.AppendIsOneMore | apps/api/app/ingestion/identity.py:75-80 | The new event is the newest; of the older ones the newest stay in order, at most 50 in all |
| StationUpdates.AnswerIff | apps/api/app/ingestion/db.py:188-239 | Which answer an upsert gives, told from the inputs; a conflict changes nothing |
| StationUpdates.CandidateIff | apps/api/app/ingestion/db.py:301-315 | A candidate is reported iff another row of the provider is at the same site |
| StationUpdates.SameSiteIff | apps/api/app/ingestion/db.py:320-329 | One site: the same city or none on both sides, and coordinates within a millionth |
| StationUpdates.SiteMembers | apps/api/app/ingestion/db.py:320-335 | The rows of a site, and those of them that are no longer listed |
| StationUpdates.ConstraintHolds | apps/api/app/ingestion/db.py:239-299 | Every upsert of every provider keeps (provider, native id) unique |
| StationUpdates.ViolationIff | apps/api/app/ingestion/db.py:239-269 | A due rename is refused iff another row of the renamed row's provider has the native id |
| StationUpdates.EmptyFamilyIsExact | apps/api/app/ingestion/db.py:179-186 | Without a family setting only the exact provider finds its rows |
| StationTheorems.RenamesIff | apps/api/app/ingestion/db.py:239-269 | For every provider, when exactly an upsert renames, onto which row, and when the UNIQUE constraint stops it, told from the inputs |
| StationTheorems.UniqueStep | apps/api/app/ingestion/db.py:145-315 | Rows with distinct native ids per family stay so, iff no rename is due whose native id another family row carries; the condition reads the table and the discovery only |
| StationTheorems.FamilyMeetsNoTwin | apps/api/app/ingestion/db.py:172-186 | For family providers that condition always holds |
| StationTheorems.OutsiderJoinsTwo | apps/api/app/ingestion/db.py:245-269 | With a family setting that leaves `airvisual` out, a concrete discovery of airvisual after which two family rows share a native id |
| StationTheorems.RenameMergedIff | apps/api/app/ingestion/db.py:239-269 | When exactly a family upsert is a rename merge, onto which row, with the old native id in its history, and never against the UNIQUE constraint |
| StationTheorems.RunKeeps | apps/api/app/ingestion/db.py:145-315 | Over every run no station id disappears, curated data survives, and native ids change only by rename merges |
| StationTheorems.RunIsUnique | apps/api/app/ingestion/db.py:145-315 | Over every run of family upserts no two rows come to share a native id |
| StationTheorems.DeviceKeepsItsRow | apps/api/app/ingestion/db.py:146-156 | Over every such run a native id keeps resolving to its row, and its next upsert updates that row, until a rename merge lands on it |
| StationTheorems.NativeRecordedIff | apps/api/app/ingestion/db.py:284-292 | The discovered native id is on the answered row unless that row pre-existed without one |
| StationTheorems.SecondUpsertFindsFirst | apps/api/app/ingestion/db.py:145-337 | Two upserts of one device under any computed ids answer the same row, with the exact exception |
| StationTheorems.MovedDeviceIsSplit | apps/api/app/ingestion/db.py:284-292 | A concrete device stored without a native id that gets a second row when it moves |
| StationTheorems.DocumentedStep | apps/api/app/ingestion/identity.py:60-80 | Every upsert keeps histories bounded, native ids listed once, and each row's own native id listed |
| StationTheorems.RunIsDocumented | apps/api/app/ingestion/identity.py:60-80 | So does every run |
| Leases.LeaseManager.Acquire | apps/api/app/ingestion/leases.py:81-96 | A lease is granted iff the key is free or expired; a steal raises the fence by one, a free key starts at one; a refusal changes nothing |
| Leases.LeaseManager.Renew | apps/api/app/ingestion/leases.py:98-109 | Renewal succeeds iff holder and fence match, extends exactly that row's expiry, and else changes nothing |
| Leases.LeaseManager.Release | apps/api/app/ingestion/leases.py:111-119 | Release removes a matching row only, and the lease no longer matches |
| Leases.InvRun | apps/api/app/ingestion/leases.py:52-119 | The ownership invariant holds over every interleaving of acquire, renew, release and clock advance with fresh holders |
| Leases.MutualExclusion | apps/api/app/ingestion/leases.py:52-119 | At most one unreleased, unexpired lease exists per key, and it owns the row |
| Leases.FencesIncrease | apps/api/app/ingestion/leases.py:52-71 | While the row of a key is present its fence rises at every change of holder |
| Leases.HolderNeverReturns | apps/api/app/ingestion/leases.py:46-48 | A holder that lost a key never owns it again |
| Leases.RevivedIff | apps/api/app/ingestion/leases.py:52-71 | The only step that makes a dead lease match again is its own holder acquiring its key at its fence |
| Leases.StaleIsPowerless | apps/api/app/ingestion/leases.py:98-119 | A lease once lost or released never changes the table again, although release resets the fence |
| Leases.BecomesStale | apps/api/app/ingestion/leases.py:52-119 | A matching lease is lost exactly by its release or by an acquisition after its expiry |
| Leases.ReusedHolderRevives | apps/api/app/ingestion/leases.py:46-48 | With a reused holder id a stale lease deletes the new row |
| Quota.PostgresQuota.ReserveWindow | apps/api/app/ingestion/quota.py:94-108 | One statement takes a slot below the limit, or none, and returns the window |
| Quota.PostgresQuota.Reserve | apps/api/app/ingestion/quota.py:156-195 | The decision and the counters after a call: both slots on a grant, the minute slot alone on an hour denial |
| Quota.InvReaches | apps/api/app/ingestion/quota.py:93-195 | The counter invariant holds over every interleaving of the two statements of all processes |
| Quota.MinuteConservation | apps/api/app/ingestion/quota.py:156-195 | A minute's counter is its granted, hour-denied and undecided requests, and never exceeds the largest limit asked for |
| Quota.HourConservation | apps/api/app/ingestion/quota.py:119-133 | An hour's counter is its granted requests and never exceeds the largest hour limit asked for, or one |
| Quota.NegativeHourLimit | apps/api/app/ingestion/quota.py:119-133 | Under a negative hour limit a call with a free minute slot is granted iff the hour has no window yet, and takes its minute slot either way |
| Quota.LowMinuteLimit | apps/api/app/ingestion/quota.py:159-159 | A minute limit below one counts as one |
| Quota.WindowsOf | apps/api/app/ingestion/quota.py:94-133 | A request counts in the minute and hour its time falls into, and hours hold whole minutes |
| Quota.DelayBetween | apps/api/app/ingestion/quota.py:83-83 | A delay is the retry hint, kept between a quarter of a second and a minute, and up to half a second more |
| Quota.GrantsBounded | apps/api/app/ingestion/quota.py:156-195 | If no request of a minute asks for more than a limit, at most that many are granted in it |
| Quota.CallIsTwoSteps | apps/api/app/ingestion/quota.py:163-171 | An uninterrupted call is its two statements, with the same decision |
| Quota.ReserveOrWait | apps/api/app/ingestion/quota.py:71-90 | Terminates for all denials and jitter, at the first grant or when the next delay does not fit; sleeps at most max_wait_s and tries at most floor(4 max_wait_s) + 1 times |
| Manifest.FinalizeUnionManifest | apps/api/app/ingestion/manifests.py:300-386 | The loops compute the specified union |
| Manifest.NormalizeDiscovered | apps/api/app/ingestion/manifests.py:346-357 | The loop indexes the discovered rows and collects exactly the cities and states that were seen |
| Manifest.AddDiscovered | apps/api/app/ingestion/manifests.py:361-366 | The discovered part of the union, with the first sighting kept |
| Manifest.CarryPrevious | apps/api/app/ingestion/manifests.py:368-381 | The carried part of the union, each row aged iff it had the chance to be seen |
| Manifest.MissesAreChances | apps/api/app/ingestion/manifests.py:291-386 | Over every sequence of runs: present iff ever listed, miss_count = later runs that could have seen it, active and dormant by the last thresholds, first_seen of the first listing |
| Manifest.ListsCarryTheManifest | apps/api/app/ingestion/manifests.py:340-386 | Runs that read back the list the previous run wrote, in any order, compute the same manifests as runs that pass on the map |
| Manifest.ReadBack | apps/api/app/ingestion/manifests.py:340-341 | The dictionary of any listing of a manifest is the manifest |
| Manifest.KeysOnlyGrow | apps/api/app/ingestion/manifests.py:323-326 | Stations are never deleted |
| Manifest.ChanceIff | apps/api/app/ingestion/manifests.py:354-376 | A run could have seen a station iff its state was read or the run lists a placed row of that state; without states, the same by city |
| Manifest.KeyIsStable | apps/api/app/ingestion/manifests.py:197-206 | Rows with a uid are the same station iff provider and uid agree, whatever their names; without one the slug decides, and then the place and name |
| Manifest.NormalizedIs | apps/api/app/ingestion/manifests.py:347-353 | A listed row is seen now with no misses, keeps a first sighting it brings, and takes a uid only when it has none |
| Manifest.LastSeenIsLastListing | apps/api/app/ingestion/manifests.py:351-351 | After any sequence of runs a station was last seen in the last run that listed it |
| Manifest.FailedFetchesAgeNobody | apps/api/app/ingestion/manifests.py:321-322 | Runs that could not read a station's state leave its counter alone |
| Manifest.RelistingReactivates | apps/api/app/ingestion/manifests.py:361-366 | A relisted station is active again with no misses and its first sighting |
| Manifest.InactiveOnlyAfterMisses | apps/api/app/ingestion/manifests.py:291-297 | An inactive station was missed by at least inactive_after runs since its last listing |
| RateLimit.SlidingWindowLimiter.SweepIdle | apps/api/app/core/ratelimit.py:45-54 | Drops idle keys, then the older half of the keys when too many are left |
| RateLimit.SlidingWindowLimiter.CheckCall | apps/api/app/core/ratelimit.py:56-72 | Sweep, prune, decide and record as specified |
| RateLimit.PrunedIsRecent | apps/api/app/core/ratelimit.py:63-65 | The pruned deque is as long as the calls of the full log inside the window |
| RateLimit.SweepInv | apps/api/app/core/ratelimit.py:45-54 | A sweep keeps every deque equal to the calls that still count, where a dropped live key starts again from nothing |
| RateLimit.AdmittedIff | apps/api/app/core/ratelimit.py:36-72 | On every trace with a non-decreasing clock, however crowded, a call is admitted iff fewer than `limit` calls of its key were admitted in the window since the key was last dropped |
| RateLimit.SinceIsSuffix | apps/api/app/core/ratelimit.py:45-72 | What counts since the last drop is the end of all that was admitted |
| RateLimit.WrongIff | apps/api/app/core/ratelimit.py:51-72 | The limiter never refuses what the full log admits, and admits wrongly iff the full window reaches the limit and what is left since the drop does not |
| RateLimit.LimiterRefinesLogIff | apps/api/app/core/ratelimit.py:36-72 | On every such trace the decisions are those of the full log iff no call is admitted wrongly |
| RateLimit.WindowsHoldIff | apps/api/app/core/ratelimit.py:36-72 | On every such trace every closed window holds at most `limit` admissions of each key iff no call is admitted wrongly |
| RateLimit.LimiterRefinesLog | apps/api/app/core/ratelimit.py:36-72 | With at most 50,000 live keys at each sweep both hold: the decisions of the full log, and the bound in every closed window |
| RateLimit.CrowdedSweepAdmitsWrongly | apps/api/app/core/ratelimit.py:51-54 | A constructed trace of 51,000 keys whose last sweep drops the first key, which is then admitted twice under a limit of one |
| RateLimit.Unlimited | apps/api/app/core/ratelimit.py:58-59 | A limit of zero or less admits every call and keeps no record |
| FileCache.BoundedBlobCache.LookUpLocked | apps/api/app/core/filecache.py:41-49 | The first section as a step on both maps, with hit, miss, absent and vanished file |
| FileCache.BoundedBlobCache.PublishLocked | apps/api/app/core/filecache.py:67-78 | The last section: what is mapped, unlinked and returned |
| FileCache.BoundedBlobCache.MarkAbsentLocked | apps/api/app/core/filecache.py:54-66 | The absent map is bounded, oldest mark dropped first |
| FileCache.LookUpKeeps | apps/api/app/core/filecache.py:41-49 | The first section forgets only files that are gone from disk and keeps the map in order of last use |
| FileCache.PublishKeeps | apps/api/app/core/filecache.py:67-78 | The bound holds and every file is either mapped or unlinked, never both |
| FileCache.CacheSafety | apps/api/app/core/filecache.py:39-78 | In every interleaving of calls: both bounds, no mapped path unlinked by the cache, and every file on disk mapped or in flight |
| FileCache.EvictsLeastRecentlyUsed | apps/api/app/core/filecache.py:75-77 | What is evicted was used before everything that stays |
| FileCache.ReturnedPathIsMapped | apps/api/app/core/filecache.py:67-78 | The returned path is mapped iff the cache may hold a file at all |
| FileCache.LookUpIff | apps/api/app/core/filecache.py:41-49 | A call is refused iff the key is marked absent, and else served iff its file is mapped and on disk |
| FileCache.AbsentIsRemembered | apps/api/app/core/filecache.py:54-58 | After a key is marked absent the next call knows it, unless no mark may be kept |
| FileCache.MarksAreKept | apps/api/app/core/filecache.py:56-58 | A mark is forgotten only as the oldest of a full list when a new one is added |
| FileCache.PublishedIsFound | apps/api/app/core/filecache.py:67-78 | What the last section returns, the next call for the key finds |
| Keyset.Ordered | apps/api/app/ingestion/export_membership.py:75-78 | The keyset order of a table: its rows, strictly descending |
| Keyset.NewestFirst | apps/api/app/ingestion/export_membership.py:78-78 | Newest first, and by falling key within one time |
| Keyset.PageIsNewest | apps/api/app/ingestion/export_membership.py:75-86 | A page is the newest rows before the cursor, at most limit, and there is a next cursor iff it is full |
| Keyset.OrderedUnique | apps/api/app/ingestion/export_membership.py:75-78 | That order is determined by the rows |
| Keyset.NoRowTwice | apps/api/app/ingestion/export_membership.py:75-86 | Whatever happens to the table between pages, no row is returned twice |
| Keyset.OnlyPresentRows | apps/api/app/ingestion/export_membership.py:75-86 | Every returned row is on a page of the walk and was in the table from which that page was read |
| Keyset.NoRowMissed | apps/api/app/ingestion/export_membership.py:75-86 | A finished walk has returned every row that was present throughout |
| Keyset.RestOfOrder | apps/api/app/ingestion/export_membership.py:81-86 | What is left behind the cursor of a full page is the rest of the order |
| Keyset.FixedTable | apps/api/app/ingestion/export_membership.py:75-86 | On a fixed table the pages concatenate to the whole order and the walk ends |
| Cursor.BytesOfSextets | apps/api/app/ingestion/export_membership.py:51-55 | base64url (section 5 of RFC 4648, without padding) decodes what it encodes, for every byte string |
| Cursor.TestVectors | apps/api/app/ingestion/export_membership.py:51-55 | The test vectors of section 10 of RFC 4648, and the two letters of base64url |
| Strings.StripKeepsIff | apps/api/app/ingestion/export_membership.py:54-54 | str.strip() keeps exactly the texts that neither begin nor end with Unicode whitespace |
| Strings.FromUtf8OfUtf8 | apps/api/app/ingestion/export_membership.py:55-63 | UTF-8 decoding undoes encoding for every text |
| Cursor.DecodeOfEncode | apps/api/app/ingestion/export_membership.py:51-72 | A decoded cursor is the timestamp and the stripped key; a key that strips to nothing is rejected |
| Cursor.RoundTripIff | apps/api/app/ingestion/export_membership.py:51-72 | The round trip is exact iff the key is not empty and has no surrounding whitespace |
| Pagination.CursorReturnsIff | apps/api/app/ingestion/export_membership.py:51-86 | A row's cursor comes back as that row iff what the strip leaves of its key stands at the same place |
| Pagination.PlainKeySurvives | apps/api/app/ingestion/export_membership.py:54-54 | In particular when the key has no surrounding whitespace |
| Pagination.TextWalkIsWalk | apps/api/app/ingestion/export_membership.py:51-86 | When every key survives the strip, the walk over text cursors is the walk of the keyset theorems |
| Pagination.StrippedKeyIsSkipped | apps/api/app/ingestion/export_membership.py:54-54 | A key that strips to another row's key: that row is never returned |
| BatchQc.FlatlineIffWindow | scripts/build_peshawar_package.py:263-270 | The cumulative-sum segments flag a row iff it lies in 18 consecutive rows of one station with one equal, present value |
| BatchQc.SegmentsRise | scripts/build_peshawar_package.py:263-269 | Segment numbers never fall and rise exactly at segment starts |
| BatchQc.BlockSize | scripts/build_peshawar_package.py:269-269 | The size of a segment is the length of its block of rows |
| BatchQc.HalfAboveMedian | scripts/build_peshawar_package.py:274-274 | At most half of any list of values lies above its median |
| BatchQcTheorems.HalfBelowMedian | scripts/build_peshawar_package.py:274-274 | And at most half lies below it |
| BatchQcTheorems.MedianIs | scripts/build_peshawar_package.py:274-274 | The median is the middle value of the sorted ones, or the mean of the two middle ones; sorting only rearranges |
| BatchQcTheorems.MedianBetween | scripts/build_peshawar_package.py:274-274 | It does not exceed what more than half do not exceed, and reaches what more than half reach |
| BatchQcTheorems.MeanBetween | scripts/build_peshawar_package.py:273-273 | A station-day has a mean iff it has a valid value, and the mean lies between any bounds of its valid values |
| BatchQcTheorems.StationsOnIff | scripts/build_peshawar_package.py:274-274 | The stations counted on a day are those with a row on it, each once |
| BatchQc.AtMostHalfOutliers | scripts/build_peshawar_package.py:272-289 | On every day at most half of the stations with valid data are city outliers |
| BatchQcTheorems.OutlierBothWays | scripts/build_peshawar_package.py:282-286 | With three stations, a mean above 50 and above three times a value that more than half of the means do not exceed is flagged; a mean up to 50, or up to three times a value that more than half reach, is not |
| BatchQcTheorems.HalfIsNotEnough | scripts/build_peshawar_package.py:282-286 | Exactly half is not enough: a concrete day on which the mean of the two middle values keeps a station from being flagged |
| BatchQcTheorems.SpikeIffBump | scripts/build_peshawar_package.py:244-261 | A row is a spike iff it lies on a jump of more than 250 that lasts one or two rows of its station and comes back to within 1 |
| BatchQcTheorems.SuspectIff | scripts/build_peshawar_package.py:300-300 | A row is suspect iff it lies on such a jump or in a flat window, or is valid on an outlier day of its station |
| BatchQc.StatesPartition | scripts/build_peshawar_package.py:235-322 | Suspect rows are measured and valid, so the three conditions exclude each other; invalid is exactly 999, 1000, below 0 or above 1000; pm25_qc is there iff the state is ok, unchanged and within range |

## Left out

- Floating point: numbers are exact reals with NaN and the infinities as values of their own; `_values_differ` keeps its tolerances.
- Clock columns (`ingested_at`, `updated_at`), `payload_sha256`, and everything of a `raw` document below its top-level keys.
- Of the database's column types: ranges and whole numbers of integer columns, and texts that Python and the database parse differently. A number stored in a text column is kept as its printed form, apart from a text that looks the same.
- Text that is not a JSON object in `raw`, and the ordering of stored flag arrays, which are sets here.
- `policy.batch_size` below one, for which the batch loop raises (zero) or does nothing (negative).
- Degraded modes: synthetic leases, unmetered quota, missing ops tables beyond the revision log, garbage-collected windows, failed transactions, `LocalQuota`.
- Quota retry hints: the loop of `ReserveOrWait` takes every delay the backend may answer.
- The attempts and the jitter of `ReserveOrWait` are functions of the attempt number, standing for a backend and a random source that may answer anything.
- Extraction of provider fields, timestamp parsing, the units table (units are given) and extractor notes; extraction starts from parsed entries.
- The buckets of the extractor are values in a map rather than shared objects that are mutated.
- Stations: `since`, evidence and time stamps of identity entries, `state_id`, `country_id`, the geographic UNIQUE constraint; the computed id is any string, colliding or not, rather than SHA-1.
- An empty native id is treated as no id.
- Manifest storage (parquet, GCS), row order of the written list, and coercion of malformed counters; place names are compared as given, already stripped and lower-cased.
- FileCache: an unlink that fails, and errors other than a missing object, beyond giving the call up.
- RateLimit: the clock is an integer, since only differences and comparisons of times matter.
- Cursor: characters outside the base64url alphabet are rejected rather than skipped, timestamps are any text without the separator rather than ISO text, and texts have no lone surrogates.
- Keyset: the collation of the key column is the order of integer positions.
- BatchQc: the severity column, the pm10, AQI, humidity and temperature range flags and infinite values; whole-column expressions are functions of the rows, so the assignment of new columns in place is not captured.
- `registry_provinces.py`, `runs.py`, `units.py`, `provenance.py`, HTTP clients, archives and routing: plumbing, or settled by reading one branch.
