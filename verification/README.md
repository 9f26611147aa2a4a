# A verified model of an SSD power-loss test bench

The bench drives an NVMe drive with random block commands, cuts its power and checks afterwards that
no acknowledged data was lost. This project models the parts of it that decide whether a drive is
accused, in the program's own shape, and proves what they guarantee.

* **The range lock** (`Bits`, `LbaBitmap`, `LockProtocol`, `LbaLock`). One bit per LBA, set and cleared
  word by word with compare-and-swap. `LockProtocol` runs any number of threads, every load and every
  swap a step of its own; `LbaLock` is the code of one runner on an array.
* **The self-describing block** (`CrcT10Dif`, `Bytes`, `Datagen`, `BlockBuffer`, `Metadata`). Header,
  patterned body and footer, and the protection information of section 8.3 of NVM Express revision 1.3
  with its T10-DIF guard.
* **The verifier** (`Verifier`, `History`, `Bench`, `Completion`, `NoFalseAlarms`, `PowerLoss`,
  `PowerLossRuns`, `Restarts`, `WriteRuns`, `PlainRuns`, `FaultlessDrives`, `IoVerifier`). `Bench` is a
  transition system: commands are generated under the lock, a device executes them block by block in any
  order, completions are judged and committed to a shadow table. `Completion` spells out what one
  completion does. `NoFalseAlarms` proves that a device that stores what it is given is never accused,
  and says exactly when a lost or misdirected write is. `PowerLossRuns` stops the run at any state and
  says what the replay of the history ring then answers; `Restarts` goes on from there, through any
  number of power losses. `WriteRuns` gives the conditions in terms of the commands in flight for runs
  that only read and write, `PlainRuns` for runs of all commands under settings whose checks depend on
  the first byte and the stamp alone. `FaultlessDrives` holds the runs on which these conditions fail.
  `IoVerifier` holds the methods that update the tables in place, each tied to the function of the
  transition system it computes.
* **The job engine** (`BioPool`, `JobProtocol`, `Lottery`, `Latency`). Circular doubly linked lists of
  command slots, the completion protocol of up to 64 job threads on two shared masks, the opcode lottery,
  the latency buckets.
* **The parameter file** (`ConfigGrammar`, `ConfigParser`, `Operations`). The table-driven parser against
  its grammar, and the operation rates that feed the lottery.
* **`FtlChecker`**, **`Wildcard`** and **`AtomicWrite`**: the map checker, the glob matcher of the bundled
  nvme-cli, and the torn-write tester. `Common` holds what several modules share.

Where the code does less than its comments say, the model follows the code and the exact condition is
proved:

* `match_wildcard` decides a pattern as documented, on every string, exactly when the pattern does not end
  in two stars (`Wildcard.DocumentedMeaningIff`).
* Replay starts with the oldest slot and then goes from the newest down. It reports a faultless drive when
  a write in flight has reached the LBA of the oldest record with a stamp that is neither the committed one
  nor the record's (`WriteRuns.WriteRunReplay`; a run that ends so: `FaultlessDrives.RecurrenceReported`).
  Such a power loss may well be survived: all later reads pass, and only its replay reports the drive
  (`FaultlessDrives.SurvivedButReported`). `Restarts.LongRunReportsIff` says what a run through any number of
  survived power losses reports.
* A ring with fewer records than slots replays nothing (`History.PartialRingReplaysNothing`). The first read
  of an LBA after the restart reports a faultless drive exactly when replay did not visit its newest record
  and a write in flight has reached it that clashes with the shadow (`WriteRuns.WriteRunRestart`; a run that
  ends so: `FaultlessDrives.PartialRingReported`).
* A block that a write-uncorrectable command in flight has made unreadable over data is reported by the
  replay (`FaultlessDrives.UncorrectableReported`). What a power loss must leave behind for the tests to go
  on without false alarms is `Restarts.RestartPassesIff`.
* `verify_hist_read` never compares metadata with the logged state, because its test is on the address of
  an array: a block with a damaged guard is taken for the logged write (`PowerLoss.ReplayIgnoresMetadata`).
* `is_all` never advances its pointer, so "all zeroes" and "all ones" mean the first byte
  (`Verifier.IsAll`, `Verifier.FirstByteDecides`).
* A reference `${NAME}` in the parameter file may contain blanks by the state table, but the variable name
  cut out of it is the one written exactly when no blank stands before the name
  (`ConfigParser.ReferencedNameExactIff`, `ConfigParser.BlankInReference`).
* A stamp is kept in 16 bits. A lost write goes unnoticed exactly when what the LBA holds happens to look
  like it (`NoFalseAlarms.LostWriteAccusedIff`); over data this means equal stamps modulo 65536
  (`NoFalseAlarms.LostOverwriteAccusedIff`). The distance counts across restarts and can be 0: the stamp is
  saved for a journal file only, so with a journal in shared memory each restart begins again at stamp 0,
  and the fifth event of a run can be a lost write that no read finds (`FaultlessDrives.LostWriteUnnoticed`).

`dafny verify dfyconfig.toml` checks everything.

## Model

| member | source | states |
|---|---|---|
| `Bits.MaskBit` | scripts/tools/nbio/bit.h:21-22 | GET_MASK64 covers exactly the bits offset up to offset + width, for every legal pair |
| `Bits.DisjointBits` | scripts/tools/nbio/iover.c:1227-1227 | the test of a word against a mask is zero exactly when they share no bit |
| `LbaBitmap.RunLength` | scripts/tools/nbio/iover.c:1220-1223 | each run stays within one word, is not empty, and ends on a word boundary unless it ends the range |
| `LbaBitmap.UndoLength` | scripts/tools/nbio/iover.c:1243-1244 | a rollback run is at most a word and at most what is locked |
| `LbaBitmap.SetRun` | scripts/tools/nbio/iover.c:1231-1233 | swapping in a locked word sets the LBAs of the run and no other |
| `LbaBitmap.ClearRun` | scripts/tools/nbio/iover.c:1274-1277 | swapping in an unlocked word clears the LBAs of the run and no other |
| `LbaBitmap.TestRun` | scripts/tools/nbio/iover.c:1226-1230 | the busy test fails exactly when an LBA of the run is held |
| `LockProtocol.StepKeepsInv` | scripts/tools/nbio/iover.c:1208-1285 | every single load or compare-and-swap of any thread keeps the bitmap the disjoint union of what the threads own |
| `LockProtocol.RunInv` | scripts/tools/nbio/iover.c:1208-1285 | the same over every interleaving of any number of threads |
| `LockProtocol.HoldersExclude` | scripts/tools/nbio/iover.c:1208-1238 | two holders never overlap, and all bits of a held range are set |
| `LockProtocol.RefusalGivesBack` | scripts/tools/nbio/iover.c:1240-1255 | after a refused attempt the thread owns nothing: rollback returned exactly the bits taken, although its masks come from the block count alone |
| `LockProtocol.RefusalHasCause` | scripts/tools/nbio/iover.c:1226-1230 | an attempt is refused only when another thread owns an LBA it still wants |
| `LockProtocol.QuiescentIsClear` | scripts/tools/nbio/iover.c:1208-1285 | with no thread inside, every word is zero: no bit leaks in any run |
| `LockProtocol.NeverStuck` | scripts/tools/nbio/iover.c:1208-1285 | a thread inside the calls always has exactly one kind of next access, inside the bitmap |
| `LbaLock.LbaLock.TryLockLbas` | scripts/tools/nbio/iover.c:1208-1256 | succeeds exactly when the range is free and then adds exactly it, otherwise leaves the bitmap word for word |
| `LbaLock.LbaLock.Rollback` | scripts/tools/nbio/iover.c:1240-1255 | from the count of locked blocks alone, the bitmap before the attempt is restored |
| `LbaLock.LbaLock.UnlockLbas` | scripts/tools/nbio/iover.c:1258-1285 | clears exactly the bits of the range |
| `LbaLock.LockUnlockRestores` | scripts/tools/nbio/iover.c:1208-1285 | lock then unlock is the identity on the bitmap |
| `CrcT10Dif.CrcT10DifGeneric` | scripts/tools/nbio/crc_t10dif.c:68-76 | the table loop computes the fold Crc, whose meaning the next rows state |
| `CrcT10Dif.TableIsDivision` | scripts/tools/nbio/crc_t10dif.c:33-66 | each of the 256 literal entries is eight steps of division by 0x18BB7 |
| `CrcT10Dif.CrcIsLongDivision` | scripts/tools/nbio/crc_t10dif.c:33-76 | for every byte sequence the checksum is the remainder of bit-serial long division of the message and 16 zero bits |
| `CrcT10Dif.CrcAppend` | scripts/tools/nbio/crc_t10dif.c:68-76 | the checksum may be computed piecewise |
| `CrcT10Dif.CrcLinear` | scripts/tools/nbio/crc_t10dif.c:68-76 | the checksum is linear over exclusive or |
| `CrcT10Dif.CrcStateInjective` | scripts/tools/nbio/crc_t10dif.c:68-76 | different states stay different under any common suffix |
| `CrcT10Dif.BurstDetected` | scripts/tools/nbio/crc_t10dif.c:68-76 | equal-length messages that differ only within two adjacent bytes have different checksums |
| `Datagen.MaskTwice` | scripts/tools/nbio/datagen.c:108-127 | derandomizing undoes randomizing |
| `Datagen.HeaderRoundTrip` | scripts/tools/nbio/datagen.c:129-207 | the header of a written block is read back, for every LBA, stamp, pattern and mask table |
| `Datagen.HeaderFoundIff` | scripts/tools/nbio/datagen.c:129-170 | a header is found exactly when pattern id, unmasked markers and raw footer fit |
| `Datagen.HeaderExact` | scripts/tools/nbio/datagen.c:129-194 | a found header determines all header and footer bytes but the reserved one |
| `Datagen.BlockExact` | scripts/tools/nbio/datagen.c:129-207 | header found and body right exactly when the block is one the generator writes, reserved byte aside |
| `Datagen.HeaderLayout` | scripts/tools/nbio/datagen.c:172-181 | the twenty bytes of a header: pattern, 0x12, stamp and LBA least significant byte first, reserved, 0x34 |
| `Datagen.BlockLayout` | scripts/tools/nbio/datagen.c:172-207 | every byte of a generated block: the header, masked but for its first byte when headers are randomized, the body of the pattern, the header again |
| `BlockBuffer.RandomizeHeader` | scripts/tools/nbio/datagen.c:108-122 | writes the masked header at its place and nothing else |
| `BlockBuffer.SetHeader` | scripts/tools/nbio/datagen.c:172-194 | header and footer become equal stored headers, the body stays |
| `BlockBuffer.SetData` | scripts/tools/nbio/datagen.c:196-207 | the buffer becomes the generated block, whatever it held |
| `Metadata.SetMetaInto` | scripts/tools/nbio/datagen.c:209-255 | the in-place computation equals SetMeta |
| `Metadata.GuardCovers` | scripts/tools/nbio/datagen.c:233-255 | the guard is one checksum over the data and the metadata before the protection information |
| `Metadata.GuardIsRemainder` | scripts/tools/nbio/datagen.c:233-255 | the two guard bytes, most significant first, are the remainder of the long division of data and leading metadata |
| `Metadata.TagBytes` | scripts/tools/nbio/datagen.c:209-231 | the tag bytes of each type: D0 FA and the LBA, or twice the LBA, most significant byte first; for type 3 the LBA in both, least significant byte first |
| `Metadata.EscapeBytes` | scripts/tools/nbio/iover.c:1335-1345 | the escape sets the application tag, for type 3 also the reference tag, and no other byte |
| `Metadata.EscapedIff` | scripts/tools/nbio/datagen.c:266-279 | which bytes make a check be skipped |
| `Metadata.UnknownTypeRejected` | scripts/tools/nbio/datagen.c:280-281 | metadata of an unknown type is never accepted |
| `Metadata.AcceptedIffRight` | scripts/tools/nbio/datagen.c:257-288 | metadata is accepted exactly when it is escaped or each field is right: the copied data, the guard over data and leading metadata, the tags |
| `Metadata.MetaRoundTrip` | scripts/tools/nbio/datagen.c:209-288 | written metadata is accepted, and so is its escaped form |
| `Metadata.DataBurstRejected` | scripts/tools/nbio/datagen.c:257-288 | any change of the data within two adjacent bytes is rejected, for both positions of the protection information |
| `Metadata.WrongGuardRejected` | scripts/tools/nbio/datagen.c:257-288 | a damaged guard is rejected for types 1 and 2 |
| `Metadata.WrittenTagsUnescaped` | scripts/tools/nbio/datagen.c:209-223 | the tags of types 1 and 2 are never the escape value |
| `Metadata.MisplacedMetaRejected` | scripts/tools/nbio/datagen.c:209-216 | type 1 metadata of another LBA is rejected |
| `Verifier.IsAll` | scripts/tools/nbio/iover.c:761-770 | the loop answers for the first byte only |
| `Verifier.FirstByteDecides` | scripts/tools/nbio/iover.c:918-1017 | for every configured value a block with only its first byte right passes as never written |
| `Verifier.GeneratedPasses` | scripts/tools/nbio/iover.c:629-759 | a block generated for the LBA and stamp passes the data and metadata checks |
| `Verifier.FactoryPasses` | scripts/tools/nbio/iover.c:918-1017 | a never-written block of the configured kind passes |
| `Verifier.UnwrittenPassesIff` | scripts/tools/nbio/iover.c:918-1017 | which bytes of data and metadata decide, for all settings, whether a block passes as never written |
| `Verifier.NewBlockMeta` | scripts/tools/nbio/iover.c:1317-1346 | a new block has right and checked metadata, or that metadata with the escape |
| `Verifier.PatternSteps` | scripts/tools/nbio/iover.c:1324-1324 | the pattern is 0 for stamp and LBA 0 and one further for each step of either, in 64 bits |
| `Verifier.DataAcceptedIff` | scripts/tools/nbio/iover.c:629-759 | the comparison, full or of the header alone, accepts exactly the generated blocks of this LBA, reserved byte aside, with a congruent stamp modulo 65536 |
| `Verifier.MisplacedOrStaleRejected` | scripts/tools/nbio/iover.c:642-678 | a generated block is accepted exactly when LBA and 16-bit stamp are right |
| `Verifier.DamageRejected` | scripts/tools/nbio/iover.c:746-759 | any single damaged byte of a generated block is rejected |
| `NoFalseAlarms.NewBlockAgrees` | scripts/tools/nbio/iover.c:1317-1385 | the descriptor committed for a generated block tells the truth about it |
| `NoFalseAlarms.StepKeepsInv` | scripts/tools/nbio/iover.c:1287-1416 | generate, device and completion steps keep lock ownership and the agreement of shadow and device |
| `NoFalseAlarms.RunInv` | scripts/tools/nbio/iover.c:1287-1416 | in every state of every run the shadow of each unlocked LBA agrees with the device |
| `NoFalseAlarms.CompletionPasses` | scripts/tools/nbio/iover.c:1578-1647 | from any invariant state a completion reports no error and no miscompare |
| `NoFalseAlarms.NeverAccused` | scripts/tools/nbio/iover.c:1049-1119 | no false alarms: every completion of every run against a conforming device passes |
| `NoFalseAlarms.InFlightDisjoint` | scripts/tools/nbio/iover.c:1299-1304 | commands in flight never share an LBA |
| `NoFalseAlarms.ReadResultZero` | scripts/tools/nbio/iover.c:1049-1119 | a read passes exactly when each of its blocks does |
| `NoFalseAlarms.FaultAccused` | scripts/tools/nbio/iover.c:1628-1644 | a block of another LBA or stamp in a read of committed data is reported |
| `NoFalseAlarms.LostWriteAccusedIff` | scripts/tools/nbio/iover.c:1578-1647 | a write reported complete but not executed, over any former state: the next read is reported exactly when the block cannot be read or does not look like the lost write |
| `NoFalseAlarms.LostOverwriteAccusedIff` | scripts/tools/nbio/iover.c:1578-1647 | over data, exactly when the 16-bit stamps differ |
| `NoFalseAlarms.LostFirstWriteAccused` | scripts/tools/nbio/iover.c:1578-1647 | over a block of all zeroes or all ones, with headers not masked, always |
| `Completion.FailedChangesNothing` | scripts/tools/nbio/iover.c:1604-1606 | a command that fails, of any kind, leaves shadow, stamp and history as they were |
| `Completion.ReadChangesNothing` | scripts/tools/nbio/iover.c:1624-1644 | so does a read or flush that succeeds |
| `Completion.SuccessTakesEffect` | scripts/tools/nbio/iover.c:1354-1416 | a command that succeeds changes exactly its own LBAs, each to the descriptor its kind calls for |
| `Completion.ReportedIff` | scripts/tools/nbio/iover.c:1586-1602 | a failure is reported exactly when no block is uncorrectable and some block holds data or zeroes, a miscompare exactly when a read succeeds and a block fails |
| `Completion.ReturnsIff` | scripts/tools/nbio/iover.c:1596-1646 | when the result is -1, that of the first failing block, or zero |
| `Completion.RecordFields` | scripts/tools/nbio/iover.c:1473-1552 | LBA, copied descriptor and next state of each history record |
| `History.PushHolds` | scripts/tools/nbio/iover.c:1484-1496 | storing a record keeps the ring equal to the newest part of an unbounded log, with hist_idx the record count modulo nhist |
| `History.ClearedHolds` | scripts/tools/nbio/iover.c:280-289 | a cleared ring stands for the empty log |
| `History.FullRing` | scripts/tools/nbio/iover.c:1484-1496 | with at least nhist records the ring is exactly the last nhist, in order of age |
| `History.ReplayOrder` | scripts/tools/nbio/iogen.c:443-472 | replay of a full ring visits every slot once: oldest first, then newest down to second oldest |
| `History.PartialRingReplaysNothing` | scripts/tools/nbio/iogen.c:761-764 | replay is empty exactly when there are fewer records than slots |
| `PowerLoss.BackupHolds` | scripts/tools/nbio/iover.c:1452-1556 | logging a command appends one record for each block to the log the ring holds |
| `PowerLoss.HistReadExact` | scripts/tools/nbio/iover.c:1123-1200 | a logged write over committed data: the read succeeds exactly when the block carries the committed or the logged stamp, and the stored descriptor is then one it satisfies |
| `PowerLoss.ReplayIgnoresMetadata` | scripts/tools/nbio/iover.c:1166-1173 | for every LBA and stamp, a block with a damaged guard that replay takes for the logged write and a read does not |
| `PowerLoss.ReplaySucceedsIff` | scripts/tools/nbio/iover.c:1123-1200 | the replay of a full ring reports nothing exactly when the block of the oldest record passes and no record is of an LBA that cannot be read though the shadow shows data or zeroes |
| `PowerLoss.ReplayRepairsIff` | scripts/tools/nbio/iover.c:1123-1200 | for every LBA, full ring or not: afterwards it passes exactly when it did before or can be read and its newest record is visited |
| `PowerLoss.OldestPassesOnce` | scripts/tools/nbio/iogen.c:443-472 | the block of the oldest record passes when its LBA does not recur in the ring |
| `PowerLossRuns.LogRun` | scripts/tools/nbio/iogen.c:907-910 | in every run each block in flight has the state it leads to as its newest record |
| `PowerLossRuns.CrashIsRecoverable` | scripts/tools/nbio/iover.c:1452-1556 | at any point each readable logged LBA holds its committed state or that of its newest record |
| `PowerLossRuns.BadIffHalfUncorrectable` | scripts/tools/nbio/iover.c:1535-1552 | only a write-uncorrectable command in flight makes a block unreadable behind the back of the shadow |
| `PowerLossRuns.ReplayAfterPowerLoss` | scripts/tools/nbio/iover.c:1123-1200 | power loss at any state of any run with a full ring: exactly when the replay reports nothing |
| `Restarts.RestartPassesIff` | scripts/tools/nbio/iover.c:298-395 | after restart and replay the whole namespace passes exactly when each effect the shadow does not know is harmless or visited |
| `Restarts.RestartReadReportedIff` | scripts/tools/nbio/iover.c:1578-1647 | for every LBA, settings and state of a run, when its first read after the restart is reported; the conditions on the run are those of WriteRunRestart and RestartReportsIff |
| `Restarts.RestartKeepsInv` | scripts/tools/nbio/iover.c:298-395 | a survived power loss leads back into the invariant of the bench |
| `Restarts.CompletionsNeverAccused` | scripts/tools/nbio/iover.c:1049-1200 | no completion between power losses is accused, in any run through any number of survived ones |
| `Restarts.ReplayAfterAnyPowerLoss` | scripts/tools/nbio/iover.c:1123-1200 | exactly when the replay after any power loss of such a run, the first or a later one, reports nothing |
| `Restarts.LongRunReportsIff` | scripts/tools/nbio/iover.c:1049-1200 | everything such a run reports, completions and replays: something exactly at a power loss whose oldest record clashes |
| `WriteRuns.WriteRunInv` | scripts/tools/nbio/iover.c:1473-1498 | in runs that only read and write, each record but that of a write in flight is of an LBA whose shadow shows data |
| `WriteRuns.WriteRunReplay` | scripts/tools/nbio/iogen.c:443-472 | in such runs replay reports something exactly when a write in flight has reached the oldest LBA with a stamp neither committed nor recorded |
| `WriteRuns.WriteRunRestart` | scripts/tools/nbio/iover.c:1578-1647 | in such runs, full ring or not, the first read of an LBA after the restart is reported exactly when its newest record was not visited and a write in flight has reached it with another stamp than the committed one, or over an unwritten block that it does not look like |
| `PlainRuns.ChecksAdmit` | scripts/tools/nbio/iover.c:746-1017 | under plain settings every check of a block is decided by its first byte and its stamp |
| `PlainRuns.ReplayReportsIff` | scripts/tools/nbio/iogen.c:443-472 | any power loss of any run of all commands, full ring: the replay reports something exactly when a command in flight has overrun the oldest record or half of a write-uncorrectable command lies over data or zeroes |
| `PlainRuns.RestartReportsIff` | scripts/tools/nbio/iover.c:1578-1647 | the same for the first read of any LBA after the restart |
| `FaultlessDrives.RecurrenceReported` | scripts/tools/nbio/iogen.c:443-472 | a run of a faultless drive, for every configuration, whose replay reports it |
| `FaultlessDrives.PartialRingReported` | scripts/tools/nbio/iogen.c:761-764 | a run of a faultless drive that the first read after the restart reports |
| `FaultlessDrives.UncorrectableReported` | scripts/tools/nbio/iover.c:1586-1604 | a run with a write-uncorrectable command of a faultless drive whose replay reports it |
| `FaultlessDrives.SurvivedButReported` | scripts/tools/nbio/iogen.c:443-472 | a long run whose power loss is survived and whose replay reports the faultless drive |
| `FaultlessDrives.LostWriteUnnoticed` | scripts/tools/nbio/iover.c:180-247 | a long run in which the stamp begins again at 0 and a lost write is found by no read |
| `IoVerifier.IoVerifier.constructor` | scripts/tools/nbio/iover.c:298-437 | nothing written, nothing locked, history cleared |
| `IoVerifier.IoVerifier.GenerateData` | scripts/tools/nbio/iover.c:1287-1352 | locks and fills the buffer with a fresh stamp, or changes nothing, exactly by whether the range is free |
| `IoVerifier.IoVerifier.CommitBlockState` | scripts/tools/nbio/iover.c:1354-1416 | the loop computes Committed |
| `IoVerifier.IoVerifier.VerifyBioRead` | scripts/tools/nbio/iover.c:1049-1119 | all blocks are checked and the first failure is returned |
| `IoVerifier.IoVerifier.CheckReadError` | scripts/tools/nbio/iover.c:1020-1047 | reports exactly the ranges with an uncorrectable block |
| `IoVerifier.IoVerifier.CheckWritten` | scripts/tools/nbio/iover.c:1558-1576 | reports exactly the ranges with a written block |
| `IoVerifier.IoVerifier.Submit` | scripts/tools/nbio/iover.c:1578-1647 | the completion step of the transition system, on the tables in place |
| `IoVerifier.IoVerifier.BackupHistState` | scripts/tools/nbio/iover.c:1452-1556 | the ring after one record for each block |
| `IoVerifier.IoVerifier.VerifyHistRead` | scripts/tools/nbio/iover.c:1123-1200 | the replay read and the forward fix of the shadow |
| `IoVerifier.IoVerifier.SubmitReplay` | scripts/tools/nbio/iover.c:1586-1637 | a failed replay read is judged, a successful one verified |
| `IoVerifier.IoVerifier.ReplayHistory` | scripts/tools/nbio/iogen.c:443-472 | the replay job visits the slots of Replay and leaves what ReplayAll computes |
| `BioPool.ListAdd` | scripts/tools/nbio/list.h:42-45 | a well-formed circular list gains a node in front |
| `BioPool.ListAddTail` | scripts/tools/nbio/list.h:47-50 | a well-formed circular list gains a node at its end |
| `BioPool.ListDel` | scripts/tools/nbio/list.h:63-68 | a well-formed circular list loses exactly the node |
| `BioPool.CreatePool` | scripts/tools/nbio/iogen.c:122-187 | iodepth fresh nodes on one well-formed list |
| `BioPool.Job.constructor` | scripts/tools/nbio/iogen.c:97-190 | the whole pool is free |
| `BioPool.Job.Issue` | scripts/tools/nbio/iogen.c:877-904 | below the depth the first free entry is a real bio; it moves to the in-flight list |
| `BioPool.Job.BioEnd` | scripts/tools/nbio/iogen.c:438-440 | a completed bio, whichever it is, moves back to the front of the free list |
| `BioPool.Job.Run` | scripts/tools/nbio/iogen.c:877-909 | over every schedule both lists stay well formed and together hold every bio of the pool exactly once, with num_inflight at most iodepth |
| `JobProtocol.PopCountFull` | scripts/tools/nbio/iogen.c:803-803 | the population count equals the number of jobs exactly when every job's bit is set |
| `JobProtocol.StepKeepsInv` | scripts/tools/nbio/iogen.c:739-806 | each atomic step of any job keeps the masks right and somebody responsible for the final store |
| `JobProtocol.RunInv` | scripts/tools/nbio/iogen.c:739-806 | the same over every interleaving |
| `JobProtocol.DoneOnlyAfterAll` | scripts/tools/nbio/iogen.c:796-806 | done is stored only after all jobs are finished, in their state and in the mask |
| `JobProtocol.DoneWhenAllEnded` | scripts/tools/nbio/iogen.c:796-806 | once all have ended, done has been stored and no running bit is left |
| `JobProtocol.EndedAs` | scripts/tools/nbio/iogen.c:745-800 | in every run a job ends aborted exactly when it failed to begin or was aborted, and done otherwise |
| `ConfigGrammar.TableGrows` | scripts/tools/nbio/parser.c:71-143 | a row of the table loops on exactly the characters that lengthen its token |
| `ConfigGrammar.CharClasses` | scripts/tools/nbio/parser.c:71-143 | the character classes of table and grammar in code points |
| `ConfigGrammar.TableStarts` | scripts/tools/nbio/parser.c:71-143 | a row moves on at exactly the first characters of the tokens that may follow |
| `ConfigGrammar.DecomposeSound` | scripts/tools/nbio/parser.c:71-143 | what the table lets through is a beginning of a line of the grammar, with its tokens |
| `ConfigGrammar.DecomposeComplete` | scripts/tools/nbio/parser.c:71-143 | every beginning of a line of the grammar is let through, and split into its own tokens |
| `ConfigGrammar.DecomposeUnique` | scripts/tools/nbio/parser.c:71-143 | a line has one decomposition only |
| `ConfigGrammar.SectionLines` | scripts/tools/nbio/parser.c:78-93 | [name] with blanks between the tokens is a line |
| `ConfigGrammar.PropertyLines` | scripts/tools/nbio/parser.c:94-122 | key=value with blanks between the tokens is a line |
| `ConfigGrammar.OperationLine` | scripts/tools/nbio/parser.c:110-124 | OPERATION=READ:70,WRITE:30 is a line |
| `ConfigGrammar.ReferenceLines` | scripts/tools/nbio/parser.c:104-142 | key=${name} with blanks between any two tokens is a line |
| `ConfigGrammar.CompleteForms` | scripts/tools/nbio/parser.c:71-143 | a line is blank, a section, a property or a reference, and nothing else |
| `ConfigParser.Parser.ParseChar` | scripts/tools/nbio/parser.c:1202-1263 | a character is taken exactly when the table, the end-of-token flag and the length limit allow it, and the fields follow the decomposition |
| `ConfigParser.Parser.ParseLine` | scripts/tools/nbio/parser.c:1300-1319 | from any earlier state, a line is accepted exactly when it is in the grammar and its reference is defined, and the callbacks get exactly its name, or its key and value |
| `ConfigParser.Parser.OnSectionDefined` | scripts/tools/nbio/parser.c:203-215 | the callback gets exactly the name |
| `ConfigParser.Parser.OnPropertyDefined` | scripts/tools/nbio/parser.c:1226-1230 | the callback gets exactly key and value, from adjacent slots |
| `ConfigParser.Parser.OnEnvRefered` | scripts/tools/nbio/parser.c:217-233 | the value is that of the variable cut out, and an undefined one is refused |
| `ConfigParser.ReferencedNameExactIff` | scripts/tools/nbio/parser.c:217-233 | the variable cut out is the one written exactly when no blank stands between the dollar sign and the name |
| `ConfigParser.BlankInReference` | scripts/tools/nbio/parser.c:217-233 | for the line k=${ a} the variable looked up is a blank |
| `Operations.SplitJoined` | scripts/tools/nbio/parser.c:494-518 | the tokens, each with its delimiter, are the text again |
| `Operations.TokenSplit` | scripts/tools/nbio/parser.c:494-518 | the slots hold the first tokens up to the limit, and the count exceeds the limit exactly when some are left over |
| `Operations.ToInteger` | scripts/tools/nbio/parser.c:254-277 | the decimal value modulo 2^64, or an error for any other text |
| `Operations.OpTypeIff` | scripts/tools/nbio/parser.c:520-547 | a text stands for an operation exactly when it spells one of its names, in either case; the names are listed in the order of the opcodes |
| `Operations.ParameterMeaning` | scripts/tools/nbio/parser.c:573-591 | an operation alone, or with a rate in 32 bits; text after a second colon is ignored |
| `Operations.NoRateTakesRest` | scripts/tools/nbio/parser.c:580-582 | an operation without a rate takes what is left of 100 |
| `Operations.ReadWriteMix` | scripts/tools/nbio/parser.c:549-595 | READ:70,WRITE:30 gives 70 to opcode 0, 30 to opcode 1 and nothing to the others |
| `Operations.ShortMix` | scripts/tools/nbio/parser.c:549-595 | so does r:70,W |
| `Operations.ParseOperation` | scripts/tools/nbio/parser.c:549-595 | accepted exactly when the parameters name distinct operations whose shares add up to 100, and then the rates are those shares; at most ten slots are read |
| `Lottery.CreateOprLottery` | scripts/tools/nbio/iogen.c:192-206 | each slot below the total holds the opcode of its interval, later slots are untouched |
| `Lottery.LotteryIsFair` | scripts/tools/nbio/iogen.c:192-206 | with rates adding up to 100 each opcode has exactly its rate of the 100 slots, and nothing else has any |
| `Latency.BucketIsFirstAbove` | scripts/tools/nbio/iogen.c:368-386 | for every latency the branch-and-divide index is the linear search for the first of the 55 marks above it |
| `Latency.BucketsHoldAll` | scripts/tools/nbio/iogen.c:387-388 | for every run the bucket counts add up to the number of completions and the bucket sums to the total latency |
| `Latency.LatencyAcctAdd` | scripts/tools/nbio/iogen.c:368-389 | each bucket counts and sums exactly the latencies that the linear search puts there, modulo 2^64 |
| `Latency.OpAcct.Record` | scripts/tools/nbio/iogen.c:402-414 | over every run all counters are those of the run modulo 2^64, and least and greatest latency are kept |
| `FtlChecker.DuplicateSnoc` | scripts/tools/ftl_checker/ftl_checker.c:207-218 | an address already marked is exactly a second use |
| `FtlChecker.CountIsCardinality` | scripts/tools/ftl_checker/ftl_checker.c:168-183 | without shared addresses a group's count is the number of its valid addresses |
| `FtlChecker.GroupIsQuotient` | scripts/tools/ftl_checker/ftl_checker.c:175-175 | the group of an address is the address divided by the power of two |
| `FtlChecker.Checker.VbWrite` | scripts/tools/ftl_checker/ftl_checker.c:144-166 | marks exactly the address and reports whether it was marked |
| `FtlChecker.Checker.VcWrite` | scripts/tools/ftl_checker/ftl_checker.c:168-183 | increments exactly the counter of the group |
| `FtlChecker.Checker.Build` | scripts/tools/ftl_checker/ftl_checker.c:185-224 | -1 exactly for a shared address; the bitmap is the image of the map, the three sentinel counters are exact, and all counters together count every entry once |
| `FtlChecker.Checker.CompareBitmap` | scripts/tools/ftl_checker/ftl_checker.c:313-328 | passes exactly when every marked address is valid in the firmware's bitmap |
| `FtlChecker.Checker.Check` | scripts/tools/ftl_checker/ftl_checker.c:396-402 | the whole check passes exactly when no address is shared, the tables can be read and every used address is valid |
| `Wildcard.MatchWildcard` | scripts/tools/nvme-cli-1.6/parser.c:208-245 | the loop with one backtrack point terminates and decides Accepts |
| `Wildcard.AcceptedMatches` | scripts/tools/nvme-cli-1.6/parser.c:208-245 | whatever is accepted is a glob match |
| `Wildcard.MatchesAccepted` | scripts/tools/nvme-cli-1.6/parser.c:208-245 | every match is accepted unless the pattern ends in two stars |
| `Wildcard.DocumentedMeaningIff` | scripts/tools/nvme-cli-1.6/parser.c:242-244 | code and documentation agree on all strings exactly for patterns that do not end in two stars |
| `Wildcard.TwoStarsRefuseEmptyRest` | scripts/tools/nvme-cli-1.6/parser.c:242-244 | "a**" does not accept "a" |
| `AtomicWrite.StampPayload` | scripts/func/atomic_write/atomic_write.c:157-168 | whatever the payload held, all its blocks carry the stamp |
| `AtomicWrite.TornRead` | scripts/func/atomic_write/atomic_write.c:126-137 | a read is reported exactly when its blocks do not all carry one stamp |
| `AtomicWrite.Tester.constructor` | scripts/func/atomic_write/atomic_write.c:185-194 | all contexts are free, once each |
| `AtomicWrite.Tester.Prepare` | scripts/func/atomic_write/atomic_write.c:147-168 | a write stamps its payload with the current stamp and advances it by one in 64 bits, a read changes neither |
| `AtomicWrite.Tester.SubmitOne` | scripts/func/atomic_write/atomic_write.c:199-211 | the context taken is no other command's, other payloads stay |
| `AtomicWrite.Tester.IoCb` | scripts/func/atomic_write/atomic_write.c:109-146 | an error is found exactly by a failed command or a torn read, and the context is free again in every case |
| `AtomicWrite.Tester.Run` | scripts/func/atomic_write/atomic_write.c:198-221 | over every schedule free and in-flight contexts add up, and a device that executes commands at once and without error is never accused |
| `AtomicWrite.Tester.MixedReadFound` | scripts/func/atomic_write/atomic_write.c:124-145 | a read with blocks of two writes fewer than 2^64 apart is found, whatever is scheduled afterwards |

## Left out

- SPDK and libaio engines, ioctl wrappers, journal files and shared memory, power control, timers and signals: the device is any sequence of block executions, the journal is state that survives.
- Random choices (opcode, LBA, escape of the tags, body patterns, masks) are inputs or arbitrary tables; the distributions of `rng.c` and `jesd219.c` are not modelled.
- Runs with `lba_overlap`: after a wrap of the 16-bit stamp the window test accepts every value, so there is nothing to guarantee.
- `bio_identify` and firmware download commands, the reset path that rebuilds the lists without unlocking, injected errors, and spor level 3, which marks blocks unwritten.
- Commands with PRACT set (the drive inserts the protection information).
- Several runner threads on one namespace in `Bench`: `iover_submit` unlocks before it commits, so a completion is one step there. The lock itself is proved for any interleaving.
- Blocks are values in `Bench` and `IoVerifier`; the address arithmetic of extended and separate metadata buffers is not modelled, the byte layout within a block is.
- Namespaces of 2^38 LBAs and more, where the 32-bit word index of the lock wraps around.
- Detection of wrong content for zeroed and uncorrectable blocks: the code drops or only logs those results.
- IoVerifier.IoVerifier.ReplayHistory: the replay reads one record after the other on a range that begins at LBA 0; with a deeper queue a refused lock would skip a slot.
- Restarts.LongRunReportsIff: the replay is carried through; `stop_on_miscompare` and `stop_on_error` would end it at its first report.
- PlainRuns.ReplayReportsIff: headers not masked, a fixed value for deallocated blocks, no check of the metadata of unwritten ones. With other settings the content that the drive chooses for a deallocated or zeroed block decides a check, which no condition on the commands can foretell; `Restarts.ReplayAfterAnyPowerLoss` covers them.
- PlainRuns.RestartReportsIff: the same; `Restarts.RestartReadReportedIff` covers the other settings.
- NoFalseAlarms.NeverAccused: the drive behaves as configured for unwritten and deallocated blocks; with the "last data" setting a deallocated block may hold anything.
- `Bench` takes generating, logging and handing over a command as one step; the code hands a command over just before it logs it.
- BioPool.Job.Issue: takes the in-flight push together with the removal from the free list; a bio that fails to be enqueued in between stops the job.
- ConfigParser.Parser.ParseLine: lines without byte 255, which the table is one entry too short for; reading lines and stripping comments is not modelled.
- ConfigParser.Parser.ParseLine: a syntax error ends the program and a long token only the line; both are the result "not accepted".
- Operations.ParseOperation: values that begin with a comma, for which the code reads a token slot it has not written.
- The other property parsers, the job parameters they fill, and `read_line`.
- Latency.OpAcct.Record: for opcodes other than read and write the code lets the minimum begin with 0, here the parameter `start`; the totals over all opcodes are not modelled.
- FtlChecker.Checker.CompareBitmap: nothing in the code stops the comparison at the end of a bitmap file shorter than the table; the contract is about the words it then reads, file and memory behind it, which have to exist.
- FtlChecker.Checker.Check: the same; the comparison of valid counts is compiled out in the source; the loop that looks for the second LBA only prints.
- AtomicWrite.Tester.Run: payloads are values, one for each context; the time limit and the polling order are the schedule.
- nvme-cli apart from `match_wildcard`: printing, plug-ins, fabrics and argument handling.
