# A Dafny model of lightsql

lightsql is an embedded SQL database: multi-version storage under snapshot isolation, a write-ahead log with crash
recovery, exact decimals, streaming query operators, foreign keys with referential actions, and a hand-written
expression parser. This project models those parts and proves what they promise.

## How it is laid out

**Storage, log and recovery.**
`Storage` holds the transaction manager, row versions and heap as classes that change in place, each method tied to a
function of the state before it. `Records` says what replaying a log means. `Engine` composes these functions into one
transition system. Its events are begin, take a snapshot, next statement, insert, delete, fail, flush (written, lost, or
written but not synced), change status, roll back, vacuum, replace the log and crash. Each mutex-guarded section is one
atomic event. A checkpoint is a repeatable-read transaction that writes nothing and ends by replacing the log, and anything
may happen between its snapshot and its replacement.
`SnapshotDb` is the reference: a database that knows no versions, only the committed rows, the durable rows, and for
each transaction the rows it started from, inserted and deleted. `Refinement`, `RefinementSteps` and `Isolation` prove
that every run of the engine is a run of the reference. `Durability` proves of every run which transactions recovery brings back,
`Checkpoints` what replacing the log keeps and loses, and `Deleters` that of those who delete a version at most one commits.
`Transactions` has the session-level classes and the loops of recovery and checkpointing, each tied to the events.
`Varint`, `Codec` and `Wal` are the bytes below, and `EndToEnd` puts the two ends together.

**Exact decimals.** `Digits`, `Decimals` (big integers), `Numerics` (the int64 fast path and the order of values) and
`DecimalText` (parsing, rendering, declared precision).

**Streaming operators.** `Operators` has the input, `Keys` the hashed key collections; `SetOps`, `Join`, `Grouping` and
`Sums` are the `Next` machines and accumulators. Each is proved to emit a declarative sequence, about which the relational
meaning is proved in turn. `Uniqueness` is the hashed constraint check, `Correlated` the cells that carry
enclosing rows into subqueries. Hashing is any function that respects key equality.

**Foreign keys.** `Cascade` is DELETE through any graph of foreign keys, cycles included.

**Parsing.** `Parser` is the precedence-climbing loop and a printer it inverts; `Grammar` states on tokens how it groups,
against the rows of the precedence table.

**Columns.** `Columns` is ADD COLUMN without a rewrite, and checkpoints that widen the rows.

Methods follow the control flow of the code. The functions they are proved against are the vocabulary of the lemmas.

## What the proofs found

Most of what the code and its comments promise holds as promised. These hold only under a condition, which is proved.

- A commit whose bytes reach the file but whose sync fails is aborted in memory and replayed on the next start
  (`Durability.FailedSyncIsReplayed`). Over every run an aborted transaction is in the log if and only if that is what happened
  to it and neither a restart nor a replacement of the log has come since (`Durability.AbortedInLogIff`).
- A checkpoint loses acknowledged commits. Its snapshot is taken at the start and the log is replaced at the end, with no
  lock held in between, so a transaction that is past its journal write when the log is replaced, and had not committed when
  the snapshot was taken, is dropped: the one caught half-way (`Checkpoints.CheckpointDropsFlushed`) and the one that began,
  wrote and committed in between (`Checkpoints.CheckpointLosesCommit`). `Checkpoints.ReplacementLosesIff` says exactly when
  a crash then restarts a table with other rows than were committed: unless every row such a transaction inserted has been
  deleted by a commit, and every row it deleted had been inserted by a commit left out like it. Having changed the table is
  not enough (`Durability.ChangedYetUndone`).
- `Horizon()` does not promise what the comment above it says. A version deleted by a transaction a live snapshot holds
  as active can lie below the horizon (`Isolation.DeadButVisible` says exactly when, `Isolation.HorizonIsUnsafe` gives
  a run). Vacuuming at any horizon at all goes unnoticed, now and after any further events, if and only if no live
  transaction sees a version deleted below the horizon by a commit its snapshot does not count (`Isolation.VacuumUnnoticedIff`).
- A frame is hidden from replay exactly when its length and what follows it wrap around 32 bits; below 4 GiB none is
  (`Wal.FrameHidden`, `Wal.ReplayExact`).
- Division panics exactly when the dividend's scale exceeds the divisor's by more than 1001, or the divisor's exceeds the
  dividend's by so much that the int32 exponent wraps, for a dividend and divisor that are not zero (`Decimals.DivFails`).
- sum() is the exact total if and only if the integers before the first decimal add up to an int64 (`Sums.SumAgg.Result`).
- A RESTRICT key does not refuse a delete when an earlier key of the same row has already cascaded to the child
  (`Cascade.CascadeBeforeRestrict`, and `Cascade.RestrictBeforeCascade` for the other order). For a child that
  is not itself matched it does refuse when no key that is the first through which the child points at a row going away
  cascades (`Cascade.ExecDelete`).
- Parentheses placed only where a node does not fit can none of them be spared, but need not be the fewest
  (`Parser.FixSparesNone`, `Parser.SparingNoneIsNotFewest`).
- A subquery not marked correlated although a reference reaches past it reads the wrong row
  (`Correlated.UnmarkedReadsWrongRow`); for every marked nesting the cells keep the meaning.

## Model

| member | source | states |
|---|---|---|
| Storage.TxManager.Begin | internal/storage/txn.go:86-95 | issues an id never issued before, in progress and active |
| Storage.TxManager.Finish | internal/storage/txn.go:107-126 | an outcome is fixed once and for all: an unknown or finished id changes nothing |
| Storage.TxManager.Horizon | internal/storage/txn.go:146-157 | the least active id or the next one; everything issued below has finished |
| Storage.TxManager.Take | internal/storage/txn.go:177-194 | a snapshot of exactly the active set, its least member, and the next id |
| Storage.Version.IsVisible | internal/storage/heap.go:53-63 | creator seen and deleter not, each being self or committed before the snapshot |
| Storage.Heap.Insert | internal/storage/heap.go:88-96 | appends one fresh version under the next row id |
| Storage.Heap.Load | internal/storage/heap.go:106-114 | appends a version under a given id and moves the next id past it |
| Storage.Heap.Delete | internal/storage/heap.go:122-140 | conflicts exactly when another live or committed transaction holds the deletion; otherwise stamps that one version |
| Storage.Heap.Scan | internal/storage/heap.go:148-159 | exactly the visible versions, in write order |
| Storage.Heap.Vacuum | internal/storage/heap.go:167-186 | drops exactly the dead versions, keeps the order of the rest, counts what it dropped |
| Records.ReplayAppend | internal/engine/persist.go:237-266 | replaying two stretches of a log is replaying the second over what the first gave |
| Records.RecoverAppend | internal/engine/persist.go:166-201 | recovering a log with one more transaction applies that transaction last |
| Records.LastWriteDecides | internal/engine/persist.go:237-266 | the last record that writes to a row decides: an insert's values, or no row after a delete; any other row is as it was |
| Engine.ScanSubseq | internal/storage/heap.go:148-159 | a scan keeps every visible version once, in ascending id order, and nothing else |
| Engine.VacuumSubseq | internal/storage/heap.go:167-195 | vacuum removes a version if and only if it is dead, and alters none |
| Engine.VacuumKeeps | internal/storage/heap.go:188-195 | a version stays exactly when its creator has not aborted and no transaction below the horizon has deleted it and committed |
| Engine.LoadRowsShape | internal/engine/persist.go:187-195 | loading recovered rows gives one live version per row, ascending, next id past them all |
| RefinementSteps.StepBegin | internal/storage/tx.go:77-88 | issuing an id keeps engine and reference related |
| RefinementSteps.StepOpen | internal/storage/txn.go:177-194 | the first snapshot sees exactly the committed rows of the reference |
| RefinementSteps.StepNextStatement | internal/storage/tx.go:108-120 | a refreshed snapshot sees exactly what is committed now; other levels keep theirs |
| RefinementSteps.StepInsert | internal/catalog/catalog.go:274-284 | an insert adds one row to its transaction's own inserts and one record to its buffer |
| RefinementSteps.StepDelete | internal/catalog/catalog.go:356-362 | a delete succeeds exactly when no other unaborted transaction deleted the row, overwriting aborted stamps |
| RefinementSteps.StepFail | internal/storage/tx.go:123 | a failed statement changes no data and bars every later one |
| RefinementSteps.StepFlush | internal/storage/journal.go:105-112 | a flush that lands makes exactly the buffered changes durable; one that does not changes nothing durable |
| RefinementSteps.StepFinish | internal/storage/tx.go:141-162 | the status change makes exactly the transaction's changes committed |
| RefinementSteps.StepRollback | internal/storage/tx.go:168-176 | rollback leaves committed and durable rows as they were |
| RefinementSteps.StepVacuum | internal/storage/heap.go:167-195 | vacuum below every live snapshot is no step at all of the reference |
| RefinementSteps.StepReplace | internal/engine/persist.go:109-134 | the records that replace the log replay to exactly what the checkpoint's snapshot sees, whatever was committed since |
| RefinementSteps.StepCrash | internal/engine/persist.go:166-201 | after a crash the rebuilt heaps are exactly the durable rows, with ids above them all |
| Isolation.StepRefines | internal/storage/tx.go:77-176 | every event of the engine is an event of the reference |
| Isolation.RunRefines | internal/storage/tx.go:77-176 | every run of the engine, from any log, is a run of the reference |
| Isolation.ScanIsView | internal/storage/heap.go:148-159 | a scan is the rows committed at the snapshot, less own deletions, plus own undeleted inserts, in write order |
| Isolation.SnapshotIsolation | internal/storage/heap.go:41-63 | the same in every state any run from any recovered log can reach |
| Isolation.ScanIsStable | internal/storage/txn.go:159-173 | no event of any other transaction, vacuum or checkpoint changes what a live transaction reads |
| Isolation.OneSnapshot | internal/storage/tx.go:108-120 | above read committed a transaction keeps its one snapshot through any events short of a crash |
| Isolation.StatementsSeeCommitted | internal/storage/tx.go:108-120 | under read committed a new statement counts exactly the transactions committed by then |
| Deleters.FirstDeleterWins | internal/storage/heap.go:116-140 | once the engine accepts a deletion by one transaction it accepts another's of the same version only after the first has aborted |
| Deleters.OneCommittedDeleter | internal/storage/heap.go:116-140 | between two starts, of the transactions whose flushed frames delete the same version at most one is committed |
| Isolation.RecoveryIsExact | internal/engine/persist.go:166-201 | a crash anywhere in any run: recovery rebuilds exactly the durable rows of the reference |
| Isolation.VacuumUnnoticedIff | internal/storage/heap.go:161-186 | in any reachable state, vacuuming at any horizon changes no live transaction's present or future scan if and only if none sees a version below it deleted by a commit its snapshot does not count |
| Isolation.VacuumIsInvisible | internal/storage/heap.go:161-186 | in particular below a horizon no live snapshot reaches below |
| Isolation.DeadButVisible | internal/storage/txn.go:140-157 | a visible version counts as dead below an id if and only if its committed deleter was active in the snapshot and lies below it |
| Isolation.HorizonIsUnsafe | internal/storage/txn.go:140-157 | a run, from any log with a row, after which vacuuming to the horizon takes the row from a live transaction that still reads it |
| Durability.WorkApplied | internal/engine/persist.go:237-266 | applying one more transaction's changes yields the rows inserted and not deleted by one more transaction |
| Durability.RecoveryIsLandedWork | internal/engine/persist.go:166-201 | in any run, what recovery rebuilds is the rows inserted and not deleted by exactly the transactions in the log, replacements included |
| Durability.CommittedIsDurable | internal/storage/tx.go:141-162 | a committed transaction is in the log unless a replacement dropped it; an aborted one is in it exactly if its sync failed and nothing has started over since |
| Durability.AbortedInLogIff | internal/storage/tx.go:154-158 | over every run, an aborted transaction is in the log if and only if some event failed to sync its frame and no restart or replacement has come since |
| Durability.RecoveryIsCommittedIff | internal/engine/persist.go:166-201 | in any run, recovery rebuilds the committed rows if and only if, of what is committed and not in the log and the reverse, each insert was deleted on the same side, and each delete was made on the other side too or undid an insert of its own |
| Durability.CrashLosesNothingIff | internal/storage/tx.go:151-160 | with the log intact and no commit half-way, a crash loses nothing if and only if every row a dropped commit inserted was deleted by a commit and every row it deleted was inserted by a dropped one |
| Durability.CrashLosesNothing | internal/storage/tx.go:151-160 | in particular when no dropped commit changed the table |
| Durability.ChangedYetUndone | internal/engine/persist.go:237-266 | a dropped commit that deleted what it inserted loses nothing although it changed the table |
| Checkpoints.ReplacementKeeps | internal/engine/persist.go:109-134 | a replacement leaves in the log exactly the transactions its snapshot judges committed |
| Checkpoints.ReplacementLosesIff | internal/engine/persist.go:109-134 | after the last replacement a crash restarts with the committed rows if and only if the commits that were past their flush before it and unseen by its snapshot have been undone in that sense |
| Checkpoints.CheckpointLosesCommit | internal/engine/persist.go:109-134 | a transaction that writes and commits between snapshot and replacement is acknowledged and gone from the log |
| Checkpoints.CheckpointDropsFlushed | internal/storage/tx.go:151-160 | so is one whose journal write and status change lie on either side of the replacement |
| Checkpoints.ScansReadOff | internal/engine/persist.go:123-132 | scanning the tables one after the other while others work gives the records that scanning them at the replacement would |
| Durability.FailedSyncIsReplayed | internal/wal/log.go:222-243 | a frame written and not synced is replayed although its transaction was aborted |
| Transactions.Journal.Write | internal/wal/log.go:222-243 | appends the buffer as one frame or leaves the history alone, and closes on any failure |
| Transactions.Journal.Replace | internal/wal/log.go:273-342 | replaces a history written to since the last checkpoint by one frame |
| Transactions.Tx.constructor | internal/storage/tx.go:77-88 | a new id, and a snapshot that holds it as active |
| Transactions.Tx.NextStatement | internal/storage/tx.go:108-120 | refuses finished, then failed transactions; refreshes the snapshot under read committed only |
| Transactions.Tx.Fail | internal/storage/tx.go:122-123 | marks the transaction failed and nothing else |
| Transactions.Tx.Log | internal/storage/journal.go:48-53 | buffers in order, and not at all without a journal |
| Transactions.Tx.Commit | internal/storage/tx.go:141-162 | durable before visible: the outcome is committed exactly when the buffer was taken, and the history grows by exactly the buffer |
| Transactions.Tx.Rollback | internal/storage/tx.go:168-176 | aborts once, drops the buffer, and does nothing after a commit |
| Transactions.CommitIsTwoSteps | internal/storage/tx.go:141-162 | commit is the transition system's flush followed by its status change |
| Transactions.OnlySnapshot | internal/storage/txn.go:177-194 | what Take promises determines the snapshot |
| Transactions.Table.Insert | internal/catalog/catalog.go:274-284 | a refused row changes nothing; an accepted one is stored and logged under the same id |
| Transactions.Table.Update | internal/catalog/catalog.go:341-353 | checked before anything changes; a delete and an insert under a new id, logged in that order |
| Transactions.Table.Delete | internal/catalog/catalog.go:356-362 | a conflict changes and logs nothing |
| Transactions.Apply | internal/engine/persist.go:204-268 | replays one record into the collected rows, or fails on an unknown table |
| Transactions.Collect | internal/engine/persist.go:166-185 | the nested maps of recovery hold exactly the recovered rows of every table, or some record names no table |
| Transactions.Place | internal/engine/persist.go:187-195 | loading in ascending id order rebuilds the heap the transition system recovers to |
| Transactions.BeginCheckpoint | internal/engine/persist.go:114-117 | the one repeatable-read transaction whose snapshot the whole checkpoint uses |
| Transactions.FinishCheckpoint | internal/engine/persist.go:119-133 | replaces the history by the schema and what that earlier snapshot sees of every table, rolls its transaction back, and reports success exactly for a clean history or an open log |
| Transactions.CheckpointIsEngines | internal/engine/persist.go:123-132 | the rows' records are the ones of the transition system's replacement |
| EndToEnd.BytesRebuildLandedWork | internal/wal/log.go:130-173 | after any run, the bytes on disk with any torn tail recover to the work of exactly the transactions in the log |
| EndToEnd.TornCommitLeavesNoTrace | internal/wal/log.go:222-243 | a commit cut anywhere short of its last byte recovers as if it had never begun |
| Varint.UvarintIsCanonical | internal/wal/record.go:213-226 | a number below 2^64 has exactly one encoding and nothing else decodes |
| Varint.UvarintLen | internal/wal/record.go:228-235 | the size it computes is the length of the encoding |
| Varint.BinaryUvarint | internal/wal/record.go:217-226 | the shifting loop reads the number the groups denote, and fails on truncation or more than 64 bits |
| Varint.FixedReads | internal/types/codec.go:30-55 | a fixed-width little-endian word reads back |
| Varint.FixedWrites | internal/types/codec.go:59-151 | and any bytes are the word they read as |
| Varint.LowFirst | internal/wal/record.go:213-235 | bytes of varints and words, low groups first |
| Codec.TextIsCanonical | internal/wal/record.go:194-211 | a string decodes if and only if it is within the bound and is its own encoding |
| Codec.ValueIsCanonical | internal/types/codec.go:30-151 | every storable value of every kind has exactly one encoding, and nothing else decodes to it |
| Codec.ReadValue | internal/types/codec.go:59-151 | the cursor reads exactly that, with jsonb brought to its canonical form |
| Codec.ValuesAreCanonical | internal/wal/record.go:131-192 | so does a row of a given width |
| Codec.RecordIsCanonical | internal/wal/record.go:108-192 | decoding gives (r, rest) if and only if r is in bounds and the bytes are its encoding followed by rest |
| Codec.ReadRecord | internal/wal/record.go:131-192 | the cursor reads exactly such a record |
| Codec.AppendRecord | internal/wal/record.go:108-129 | extends the buffer by exactly that encoding |
| Codec.InsertBytes | internal/wal/record.go:108-129 | an insert as it stands in the log, byte for byte |
| Codec.NumericBytes | internal/types/codec.go:30-55 | a numeric value as it stands in the log, byte for byte |
| Wal.FrameIsCanonical | internal/wal/log.go:176-214 | a frame is accepted if and only if the bytes are a whole frame whose length is not hidden by the 32-bit wrap |
| Wal.FrameHidden | internal/wal/log.go:185-196 | a whole frame is taken for a torn tail exactly when the wrap hides its length |
| Wal.ReplayExact | internal/wal/log.go:130-173 | replay delivers every transaction in order if and only if every one is within bounds and no frame is hidden |
| Wal.ReplayWhole | internal/wal/log.go:130-173 | below 2^32 bytes it delivers exactly the whole frames and cuts the file at the last of them |
| Wal.TornStops | internal/wal/log.go:176-214 | any strict prefix of a frame ends the log |
| Wal.ZerosStop | internal/wal/log.go:176-214 | so does a tail of zeros of any length |
| Wal.ReadFrame | internal/wal/log.go:176-214 | reads one frame, the end, or a tail to cut off, as specified |
| Wal.Encode | internal/wal/log.go:246-257 | lays out header and body of exactly one frame |
| Wal.FrameBytes | internal/wal/log.go:246-257 | a frame as it stands in the file, byte for byte: length, checksum, count, records |
| Wal.Log.constructor | internal/wal/log.go:82-121 | opens what an earlier run left or starts an empty file |
| Wal.Log.Replay | internal/wal/log.go:130-173 | delivers exactly the transactions acknowledged so far, once, and leaves the file ending at the last of them |
| Wal.Log.Write | internal/wal/log.go:222-243 | after a write cut anywhere the file holds what it held, plus the frame if it all arrived |
| Wal.Log.Checkpoint | internal/wal/log.go:273-359 | replaces a dirty history by one frame and leaves a clean one alone |
| Wal.DiskStepOk | internal/wal/log.go:222-257 | a write, torn write, checkpoint, zero-filled tail or restart keeps the file a run of frames and one tail that stops replay |
| Wal.RunDelivers | internal/wal/log.go:130-173 | over any run of those, replay delivers exactly the transactions that reached the file since the last checkpoint, and what that wrote, in order |
| Digits.NatTextReads | internal/types/decimal_value.go:48-76 | the digits of a number denote it |
| Digits.IntTextReads | internal/types/decimal_value.go:48-76 | signed digits parse back to the number |
| Digits.QuoRem | internal/types/decimal.go:119-122 | truncated division: the remainder is smaller than the divisor and has the dividend's sign |
| Decimals.AddIsExact | internal/types/decimal.go:97-106 | sums and differences are the exact rationals at the wider scale |
| Decimals.MulIsExact | internal/types/decimal.go:110-115 | products are exact |
| Decimals.CmpOrders | internal/types/decimal.go:137-140 | comparison is the sign of the exact difference, whatever the scales |
| Decimals.ModIsRemainder | internal/types/decimal.go:119-122 | the remainder of the truncated quotient at the common scale |
| Decimals.RoundIsHalfAway | internal/types/decimal.go:145-166 | narrowing rounds the magnitude half up, sign kept |
| Decimals.RoundIsNearest | internal/types/decimal.go:145-166 | widening keeps the number; narrowing moves it by at most half a unit of the last place kept, and by exactly half only away from zero |
| Decimals.NegIsExact | internal/types/decimal.go:125-127 | the negation is the negative rational at the same scale |
| Decimals.DivFails | internal/types/decimal_parse.go:121-136 | fails exactly for a zero divisor; a zero dividend gives zero at the wider scale; panics exactly for a dividend's scale over 1001 wider than the divisor's, or a divisor's so much wider that the int32 exponent wraps |
| Decimals.WeightsFit | internal/types/decimal_parse.go:139-173 | below the cap no weight leaves int32, and at the cap the weights do not matter |
| Decimals.DivScaleWide | internal/types/decimal_parse.go:139-158 | for scales up to 1000 the result's scale is below neither operand's |
| Decimals.LeadingGroup | internal/types/decimal_parse.go:162-191 | every number but zero has exactly one leading base-10000 group, and that is the digit and the weight computed |
| Decimals.DivScaleIs | internal/types/decimal_parse.go:139-158 | for leading groups x·10000^u and y·10000^v the scale is 16 - 4(u - v), four more if x < y, unless an operand's is wider or a thousand is passed |
| Decimals.DivIsShort | internal/types/decimal_parse.go:139-158 | a quotient whose scale neither operand sets has an unscaled magnitude of at most 10^20 |
| Decimals.DivIsRounded | internal/types/decimal_parse.go:121-136 | for a dividend other than zero, the exact quotient rounded half away from zero at the chosen scale, although computed in two roundings |
| Decimals.DivIsPrecise | internal/types/decimal_parse.go:121-158 | a scale that was not capped gives at least sixteen significant digits |
| Decimals.LeadBounds | internal/types/decimal_parse.go:162-191 | the leading base-10000 digit brackets the number within one unit of its weight |
| Numerics.NumericReads | internal/types/decimal_value.go:33-76 | either representation reads back as the decimal it was made from, and is inline exactly for scales up to 18 and digits that fit an int64 |
| Numerics.ValidNumericUnique | internal/types/decimal_value.go:33-46 | one number at one scale has one representation |
| Numerics.Cut | internal/types/decimal_value.go:78-85 | splits at the first separator |
| Numerics.AddNoOverflow | internal/types/decimal_value.go:224-232 | accepts exactly the sums that fit, from wrapped arithmetic |
| Numerics.MulNoOverflow | internal/types/decimal_value.go:234-248 | never accepts a wrapped product; refuses exactly those that do not fit and those of the least integer |
| Numerics.ScaleNoOverflow | internal/types/decimal_value.go:214-222 | succeeds if and only if the product with the power of ten fits |
| Numerics.AlignSmall | internal/types/decimal_value.go:190-204 | two small values at the wider scale, with no wrap |
| Numerics.AddNumeric | internal/types/decimal_value.go:103-110 | fast or big, the canonical form of the exact sum |
| Numerics.SubNumeric | internal/types/decimal_value.go:113-120 | fast or big, the canonical form of the exact difference |
| Numerics.MulNumeric | internal/types/decimal_value.go:124-133 | fast or big, the canonical form of the exact product |
| Numerics.ModNumeric | internal/types/decimal_value.go:151-163 | fast or big, the canonical form of the remainder, or division by zero |
| Numerics.NegNumeric | internal/types/decimal_value.go:166-171 | fast or big, the canonical form of the negative number, the least integer included |
| Numerics.CmpNumeric | internal/types/decimal_value.go:174-186 | fast or big, the sign of the exact difference |
| Numerics.ExactNumericSame | internal/types/value.go:121-126 | widening an integer keeps the number |
| Numerics.Compare | internal/types/value.go:282-321 | on NULL, integers and numerics, the order of the rationals with NULL last |
| Numerics.SqlCmp | internal/types/value.go:348-353 | UNKNOWN exactly when a side is NULL, else the predicate of the exact order |
| Numerics.OrderIsTotal | internal/types/value.go:272-321 | that order is reflexive, antisymmetric, transitive and total, with NULL last |
| DecimalText.IsAllDigits | internal/types/decimal_parse.go:89-99 | exactly the non-empty runs of digits |
| DecimalText.SplitExponent | internal/types/decimal_parse.go:63-87 | mantissa and exponent at the first e, refusing an exponent that is empty, not digits or over five long |
| DecimalText.ParseDecimal | internal/types/decimal_parse.go:14-60 | the loop computes the specified reading of a text, errors included |
| DecimalText.ParseOfRender | internal/types/decimal.go:182-207 | parsing what was rendered gives back the same digits at the same scale |
| DecimalText.RenderShape | internal/types/decimal.go:179-207 | a minus sign for a negative number, digits without a leading zero unless it stands alone, and a point with as many digits as the scale |
| DecimalText.ParseReads | internal/types/decimal_parse.go:14-60 | digits with a point anywhere among them, after an optional sign, are read as they stand |
| DecimalText.ExponentDenotes | internal/types/decimal_parse.go:63-87 | an exponent is the number its sign and up to five digits denote |
| DecimalText.ExponentScales | internal/types/decimal_parse.go:14-60 | a rendered number followed by an exponent e denotes that number times 10^e |
| DecimalText.ExponentShifts | internal/types/decimal_parse.go:50-58 | an exponent multiplies by its power of ten and changes nothing else |
| DecimalText.DigitsBeforeBound | internal/catalog/catalog.go:648-656 | at most k digits before the point if and only if the magnitude is below 10^k |
| DecimalText.FitNumericIff | internal/catalog/catalog.go:628-644 | accepted if and only if half a unit of the declared scale more stays below 10^(precision - scale); what is stored has the declared scale, is the number itself where that is no narrower, and otherwise is nearest to it, ties away from zero |
| Keys.KeyCounts.Add | internal/builtin/aggregate.go:343-352 | counts one more of the key's class and touches no other |
| Keys.KeyCounts.Take | internal/builtin/aggregate.go:358-367 | removes one of the class if any is left |
| Keys.KeyCounts.Has | internal/builtin/aggregate.go:370-378 | whether the class was ever added, spent or not |
| Keys.KeySet.Add | internal/builtin/aggregate.go:391-406 | true exactly for a class not present, which it adds |
| SetOps.KeptCopies | internal/exec/setop.go:92-112 | how many copies of every class survive, for each operator with and without ALL |
| SetOps.KeptSelects | internal/exec/setop.go:47-112 | the output is candidates in their order, none twice |
| SetOps.MultisetAlgebra | internal/exec/setop.go:47-135 | m+n, min(m,n), max(m-n,0) with ALL; at most one without, and exactly when set algebra says so |
| SetOps.SetOp.LoadRight | internal/exec/setop.go:119-135 | drains the right side into counts |
| SetOps.SetOp.NextCandidate | internal/exec/setop.go:74-89 | left rows, then for UNION right rows, each once, in order |
| SetOps.SetOp.KeepRow | internal/exec/setop.go:92-112 | keeps a row exactly when its earlier copies and the right side's allow |
| SetOps.SetOp.Next | internal/exec/setop.go:47-69 | repeated, emits exactly the specified output in order, then ends; it ends only after inputs that did not fail |
| Join.JoinContents | internal/exec/exec.go:1127-1280 | a row is returned if and only if it is a matching pair, a kept left row without a partner, or a kept right row without one |
| Join.JoinRows | internal/exec/exec.go:1127-1280 | the same spelled out: a pair needs a condition that is TRUE or absent, and a row is padded with NULLs when the condition is TRUE for none of its pairs |
| Join.JoinCopies | internal/exec/exec.go:1127-1280 | and as often as there are such pairs, left rows and right rows that make it |
| Join.JoinOp.Build | internal/exec/exec.go:1156-1174 | reads the right side once, none of it marked |
| Join.JoinOp.TakeLeft | internal/exec/exec.go:1176-1200 | the next left row, or draining begins exactly for a kept right side |
| Join.JoinOp.TryPair | internal/exec/exec.go:1200-1225 | one more pair, emitted exactly when the condition is true of it |
| Join.JoinOp.FinishLeft | internal/exec/exec.go:1200-1230 | a kept left row is padded exactly when nothing matched |
| Join.JoinOp.DrainNext | internal/exec/exec.go:1176-1200 | right rows that never matched, padded, in order |
| Join.JoinOp.Next | internal/exec/exec.go:1176-1244 | repeated, emits for all five flavours exactly the specified output in order, each row in the one shared buffer, then ends; it ends only if neither input failed and the condition raised for no pair, and raises only for a pair of its rows |
| Join.JoinOp.Match | internal/exec/exec.go:1252-1263 | evaluates the condition over the joined row in the shared buffer |
| Join.JoinOp.Emit | internal/exec/exec.go:1269-1280 | each present side in its place, NULLs for an absent one |
| Grouping.FoldsItsGroup | internal/exec/exec.go:1378-1423 | an accumulator folds exactly the rows of its group, in order |
| Grouping.KeysCover | internal/exec/exec.go:1350-1361 | the group keys are of different classes and every row has one |
| Grouping.FirstAppearance | internal/exec/exec.go:1378-1423 | the group keys, and the rows DISTINCT keeps, are those of the first row of each class, in the order of those rows |
| Grouping.GroupSelects | internal/exec/exec.go:1378-1423 | a group is exactly the rows of its class, in their order |
| Grouping.GroupsPartition | internal/exec/exec.go:1378-1423 | the groups partition the input |
| Grouping.AggregateOp.Find | internal/exec/exec.go:1350-1361 | the group of the key's class, created last and only when no group has it |
| Grouping.AggregateOp.AddRow | internal/exec/exec.go:1378-1423 | folds one row into its group and no other |
| Grouping.AggregateOp.Build | internal/exec/exec.go:1378-1423 | groups in first-appearance order; over no rows one group with untouched accumulators when there are no keys, else none; fails exactly when the input does |
| Grouping.AggregateOp.Next | internal/exec/exec.go:1425-1446 | returns the groups one by one and ends after the last; over no rows exactly one row without keys and none with; never after an input that failed |
| Grouping.DistinctKeys | internal/exec/exec.go:1471-1503 | the keys of the rows DISTINCT keeps are the group keys, in order |
| Grouping.DistinctOp.Next | internal/exec/exec.go:1471-1503 | repeated, emits exactly the first row of each class, in order; ends only after an input that did not fail |
| Sums.SumAgg.Add | internal/builtin/aggregate.go:152-185 | one more value seen, the running state still denoting all of them |
| Sums.SumAgg.Result | internal/builtin/aggregate.go:199-213 | the exact total, NULL for no values, if and only if the integers before the first decimal fit an int64 |
| Sums.SumIgnoresOrder | internal/builtin/aggregate.go:143-213 | exact totals of the same values in any order are the same value, scale included |
| Uniqueness.AnyNull | internal/catalog/catalog.go:761-768 | whether a key column is NULL |
| Uniqueness.KeyEqual | internal/catalog/catalog.go:772-779 | agreement on every key column |
| Uniqueness.CollideIs | internal/catalog/catalog.go:709-759 | two rows collide exactly when on every key column both hold a value and the same one, and the condition is TRUE of both |
| Uniqueness.CheckUniqueOver | internal/catalog/catalog.go:709-759 | a violation if and only if two covered rows without NULL keys agree, reported at the first such row; a failure of the condition exactly at the first row without a NULL key for which it fails, if no violation comes before it |
| Cascade.Store.ChildrenOf | internal/catalog/catalog.go:525-546 | every live row that has, in every column of some key, a value and the same as the row's paired column, and no other, grouped by those keys in their order |
| Cascade.Store.ParentHasKey | internal/catalog/catalog.go:504-521 | whether a live parent agrees on every column pair |
| Cascade.Store.CheckReference | internal/catalog/catalog.go:475-496 | a row passes exactly when one of its key columns is NULL or a live parent agrees on every column pair |
| Cascade.Store.CheckForeignKeys | internal/catalog/catalog.go:460-474 | succeeds if and only if for every live row and key some key column is NULL or a live parent agrees on every column pair |
| Cascade.Store.ClosureIsClosed | internal/exec/exec.go:762-816 | reverse reachability holds every live row that points into it |
| Cascade.Store.ClosureIsLeast | internal/exec/exec.go:762-816 | and is within every set that does |
| Cascade.ApplyRefAction | internal/exec/exec.go:827-877 | a cascade removes a child after what is under it; any other action refuses, naming a row whose first key blocks it |
| Cascade.ApplyOnce | internal/exec/exec.go:791-814 | acts on a version at most once, and notes its table |
| Cascade.ApplyGroup | internal/exec/exec.go:791-814 | deals with every child one foreign key found |
| Cascade.ApplyRefActions | internal/exec/exec.go:782-816 | ends on every cyclic graph, removes exactly the versions newly acted on, and leaves no child of the row unattended |
| Cascade.DetachedConsistent | internal/exec/exec.go:686-734 | rows that lose nothing they point at stay consistent |
| Cascade.DetachedClosure | internal/exec/exec.go:686-734 | what went, with nothing left pointing at it, is exactly the closure of the matched rows |
| Cascade.CheckTouched | internal/exec/exec.go:747-760 | succeeds if and only if the written tables other than the target have every reference they need |
| Cascade.ExecDelete | internal/exec/exec.go:686-734 | success counts the matched rows, removes exactly their reverse-reachability closure, each unmatched row of it reached through a first key that cascades and that agrees on every column pair with a row removed, leaves no row that so refers to a removed one and no dangling reference; refusal names a cause inside the closure |
| Cascade.DeleteMatched | internal/exec/exec.go:699-726 | the statement's loop: each matched row goes after what is under it |
| Cascade.CascadeBeforeRestrict | internal/exec/exec.go:789-813 | two keys from one child, CASCADE first: the delete goes through in spite of RESTRICT |
| Cascade.RestrictBeforeCascade | internal/exec/exec.go:789-813 | the same two keys in the other order: it is refused |
| Correlated.CellsKeepMeaning | internal/exec/env.go:33-50 | for every marked nesting, cells pushed only for marked subqueries give the meaning of the full stack of rows |
| Correlated.UnmarkedIsConstant | internal/exec/expr.go:335-362 | a subquery nothing reaches past has one answer for every row, so it may be cached |
| Correlated.UnmarkedReadsWrongRow | internal/exec/env.go:33-50 | without the mark a reference one level out reads the wrong row |
| Correlated.LevelsReadOutwards | internal/exec/env.go:33-50 | through any nesting, level 0 reads the row of the enclosing query, level 1 that of the one outside it, and so on |
| Correlated.FilterSelects | internal/exec/exec.go:316-334 | a filter passes on exactly the rows for which its condition is TRUE, in order, up to the first failure |
| Correlated.ProjectMaps | internal/exec/exec.go:344-360 | a projection evaluates its items for every row in order, up to the first failure |
| Correlated.InIsDisjunction | internal/exec/expr.go:518-543 | for a left side that is not NULL, IN is the three-valued disjunction of the comparisons and NOT IN its three-valued negation |
| Correlated.DrainColumn | internal/exec/expr.go:313-333 | the first column in order, cut at the limit, an error only if reached |
| Correlated.InLoop | internal/exec/expr.go:526-543 | TRUE for a match; without one NULL if any comparison is unknown or the left side is NULL; else FALSE; NOT IN the opposite, NULL in the same cases |
| Correlated.ScalarSub.Answer | internal/exec/expr.go:335-362 | cached or run per row, the meaning of the subquery for this row: NULL for no row, the value of one, an error for more |
| Correlated.ScalarSub.One | internal/exec/expr.go:369-384 | NULL for no row, the value of one, an error for more |
| Correlated.ExistsSub.Answer | internal/exec/expr.go:386-425 | cached or run per row, TRUE or FALSE by whether there is a row, negated on request, whatever comes after the first |
| Correlated.InSubquery.Answer | internal/exec/expr.go:446-487 | cached or run per row, the three-valued disjunction over the subquery's rows or its negation, with the errors in the order the two forms meet them |
| Parser.StopsExactly | internal/parser/expr.go:77-148 | the loop stops exactly at a token that binds no tighter than asked, leaving it unread |
| Parser.RawParses | internal/parser/expr.go:68-148 | a tree whose operators fit their places is read back from its tokens, whatever follows |
| Parser.ExprFits | internal/parser/expr.go:68-330 | every tree the parser returns fits unless IS TRUE or IS FALSE is among the tokens consumed, which are a proper front |
| Parser.ReadsBackIff | internal/parser/expr.go:22-64 | tokens read back as the tree they were printed from if and only if the binding powers let every operator stand where it is |
| Parser.FixFits | internal/parser/expr.go:22-64 | the printer's parentheses make any tree fit and change nothing else |
| Parser.FixKeeps | internal/parser/expr.go:22-64 | and where the tree fits already none is added |
| Parser.FixSparesNone | internal/parser/expr.go:22-64 | take away any of the parentheses added, one or several, and some node no longer fits |
| Parser.SparingNoneIsNotFewest | internal/parser/expr.go:22-64 | a tree for which one parenthesis further out does the work of two |
| Parser.PrintThenParse | internal/parser/expr.go:68-148 | printing any tree so and parsing returns it and stops at the next token that is no operator |
| Grammar.Groups | internal/parser/expr.go:22-64 | `a op1 b` followed by a second operator or by IS, BETWEEN, IN or `::`: the second takes b exactly when its row is further down the precedence table, and equal rows group from the left; IS TRUE is IS NOT DISTINCT FROM TRUE |
| Grammar.PrefixGroups | internal/parser/expr.go:255-275 | NOT takes what follows its operand from IS on downwards, a sign only the cast |
| Grammar.PrefixOnTheRight | internal/parser/expr.go:255-275 | an operator's right side may begin with NOT or a sign, whatever the rows |
| Grammar.GroupsAfter | internal/parser/expr.go:77-252 | the last operand of an operator or of BETWEEN takes an operator further down; IS, IN and `::` end by themselves |
| Grammar.OneRowEach | internal/parser/expr.go:40-64 | every operator has exactly one symbol and one row of the precedence table |
| Parser.Cursor.Expression | internal/parser/expr.go:68-74 | the token cursor reads exactly what the grammar function reads, and always ends; `Grammar` says what that is |
| Parser.Cursor.Infix | internal/parser/expr.go:77-148 | so does the loop that extends its left side |
| Parser.Cursor.Turn | internal/parser/expr.go:77-148 | one turn: mixfix forms first, then the table; ending consumes nothing |
| Parser.Cursor.IsSuffix | internal/parser/expr.go:153-188 | IS [NOT] NULL, TRUE, FALSE and DISTINCT FROM, read as the grammar function reads them |
| Parser.Cursor.RangeSuffix | internal/parser/expr.go:192-252 | BETWEEN, IN over a list and LIKE, read as the grammar function reads them |
| Parser.Cursor.Bounds | internal/parser/expr.go:208-224 | the two bounds of BETWEEN, parsed tighter than the AND that joins them |
| Parser.Cursor.List | internal/parser/expr.go:236-246 | the items of an IN list in order |
| Parser.Cursor.Prefix | internal/parser/expr.go:255-330 | literals, unary operators and parentheses, read as the grammar function reads them |
| Columns.LazyEqualsEager | internal/catalog/catalog.go:325-335 | after any mix of inserts, updates, deletes and ADD COLUMNs, reading through Values is reading a table widened eagerly at each |
| Columns.ReplayOfOp | internal/engine/persist.go:223-255 | replaying what an operation logged redoes it, although the column's value is computed again |
| Columns.HistoryReplays | internal/engine/persist.go:223-255 | replaying the whole history gives the running table itself |
| Columns.SchemaReplays | internal/engine/persist.go:119-121 | replaying only the schema entries from the table as created gives the running columns with their missing values, although every default is evaluated again |
| Columns.CheckpointChangesNothing | internal/engine/persist.go:109-134 | recovering from a checkpoint's whole frame and anything after it, and recovering from the whole history, read the same as the running table |
| Columns.ColumnList.AtWidth | internal/catalog/catalog.go:325-335 | a short row continued with the missing values |
| Columns.ColumnList.AddColumn | internal/catalog/catalog.go:952-980 | a taken name is refused, or ignored under IF NOT EXISTS; otherwise the column, its missing value, check and foreign key come last |
| Columns.ColumnList.SetMissing | internal/catalog/catalog.go:371-378 | one column's missing value, or an error for one the table lacks |

## Left out

- Cascade.ExecDelete: SET NULL and SET DEFAULT on delete, and all of ON UPDATE, are not modelled (`NoRewrites`). They rewrite rows, and a key-permuting self-reference can recurse without end. RETURNING, cancellation and the check constraints of touched tables are out as well. Whether a blocking key refuses a matched row depends on the order in which the rows are deleted and is not stated.
- Wal.Log.Write: records are within the decoder's bounds and the frame body within 2^30 bytes (`Fits`); the code writes larger frames and cannot read them back.
- Wal.Log.Checkpoint: the replacement is atomic. The temporary file, hard link, rename and directory sync are not modelled, nor is the kept previous generation.
- Columns.ColumnList.AddColumn: registering the new foreign key with the table it points at is not modelled.
- Wal.DiskStepOk: zeros that fill up a torn frame are taken not to make its checksum right.
- Wal.Log.Replay: the file is below 2^32 bytes; `Wal.ReplayExact` covers longer ones. The checksum is any function of the body.
- Parser.Cursor.Prefix: function calls, qualified names, CASE, EXISTS, CAST(), subqueries and type names of several words or with modifiers are not modelled, nor are positions and error messages.
- Codec.ReadValue: what jsonb canonicalisation does is a parameter; the raw bytes are proved canonical.
- Correlated.CellsKeepMeaning: plans are tables, filters, projections and any operator that only combines rows; operators that interleave expressions with their own work are not modelled one by one. The binder's setting of the mark is taken as given.
- Correlated.InLoop: NULL over an empty list is NULL, as the code has it, where the three-valued fold gives false.
- Numerics.Compare: floats, text and temporal kinds are left out. The order is not transitive across floats and large exact numbers.
- Numerics.NumericReads: scales are unbounded below the int32 limit; an int32 scale is taken not to wrap in multiplication, and in division only the exponent's wrap is modelled.
- Parser.ExprFits: consumed IS TRUE and IS FALSE shorthands are excluded, because the parser turns them into IS [NOT] DISTINCT FROM: `x IS TRUE * y` parses, to a product over a comparison that fits nowhere without parentheses. `Grammar.Groups` has them.
- Parser.Cursor.RangeSuffix: IN over a subquery is not modelled.
- Transactions.Apply: schema and missing-value records change no rows there; `Columns` has what they do to a table. Partial replay, which skips unknown tables, is out.
- Cascade.ApplyRefAction: SET NULL and SET DEFAULT are not modelled, as for `ExecDelete`.
- Transactions.Table.Insert: the per-row constraint check is any function from a row to the row stored or a refusal.
- DDL interleaved with other sessions' pending rows, renaming and forgetting buffered records, and partial replay: the set of tables is fixed in a run.
- Clocks, read-only transactions, directory locks and the restoring of sequences.
- Serializable, which the code treats as repeatable read.
- count, avg, min and max: easy beside sum.
- Sorting, limits, LIKE patterns, JSON, temporal values, catalog views and query-level parsing.
