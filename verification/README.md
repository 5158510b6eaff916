# Two small cores, verified

A Dafny 4.11 model of the parts of this tree that carry real logic, with proofs of what they
promise. `dafny verify dfyconfig.toml` checks everything.

**sysstat 6.0.1.** `sadc` collects, `sar` reports. The model covers

- the activity file, a header and then records whose shape the header announces (`Framing`,
  `SaFormat`), the counts and flags that `sadc` writes by (`SaCounts`, `SaFlags`), and which block of a
  record holds which array of a sample (`SaBlocks`);
- the collector: what its runs make of the files they find and what they send (`Collecting`), what that
  means for the files (`CollectingFiles`) and for `sar` (`CollectingPipe`), and the program that does
  it byte by byte (`Sadc`); and several collectors interleaved at the level of single `write` calls,
  with rotation (`SaLock`);
- the pipe from `sadc` to `sar`, where only a mark on a record says that another header follows
  (`SarPipe`);
- `sar`'s replay of a file: what it has to print (`SarPass`), why its lines add up (`SarAverage`), which
  records it shows (`SarChoice`), the program with two buffers that take turns (`SarReplay`), the
  selection of entries by interval (`Slices`), the way from the bytes of a file, and from the runs of
  `sadc`, to that replay (`SarFile`), and the percentages of a CPU line (`CpuShare`);
- `ioconf`: number conversion (`IocConv`), device names with letters (`IocNames`) and with numbers
  (`IocNumbered`, `IocClash`), what the lines of the configuration file mean (`IocLines`), the table with
  its shared and spare structures (`IocTable`);
- `iostat`'s slots for devices that come and go: which devices are listed (`IostatListing`), what the
  reports say of them (`IostatBooks`), and the program (`IostatSlots`).

**wireless_tools 28.** The event stream decoder (`EventStream`), MAC addresses and keys as text
(`HexText`, `MacText`, `KeyText`), frequencies as mantissa and exponent (`FreqCodec`), dBm and
milliwatts (`PowerCodec`).

Structures are byte strings of fixed size; integers are unbounded and cut to 16, 32 or 64 bits where
the C code cuts them. Code that updates state is modelled as classes and methods and proved against
functions of the old state; theorems are then about those functions. `Bytes` and `Arith` hold shared
helpers.

Read the main results first: `Sadc.RunAll` and `Sadc.Watch` with `CollectingFiles.RunsRecord`,
`CollectingFiles.DueFree`, `CollectingFiles.RunsLose`, `CollectingPipe.RunInStep` and
`CollectingPipe.RunTold`; `SarFile.CollectAndReport`; `SaLock.Interleavings` and
`SaLock.RotationBreaks`; `SarReplay.Sar.ReadStatsFromFile` with `SarChoice.ReplayIs`,
`SarChoice.PassShows`, `SarChoice.PassCovers`, `SarPass.EachRestartOnce` and `SarAverage.ReportAddsUp`; `EventStream.EventsRead`; `IocTable.Table.IocInit`
and `IocTable.NameFromFile`; `IocNames.NamesDiffer`, `IocClash.ExplicitIff` and `IocClash.ImplicitIff`;
`IostatSlots.RwIoStatLoop` with `IostatBooks.RightReport`, `IostatListing.ReturnIff` and
`IostatListing.FixedDevices`; `CpuShare.SharesTotal100`; `KeyText.RoundTrip`;
`FreqCodec.VersionsCompared`; `PowerCodec.RoundTripIff`.

## Where the code does less than it seems to promise

Each of these is stated with the condition under which the code does what is expected, and with an
input or a whole family of inputs for which it does not.

- `sar` gets what `sadc` sends if and only if no rotation that is followed by another sample leads to a
  day file that announces other blocks than the header just sent down the pipe (`RunInStep`,
  `RotationOutOfStep`, `MismatchBreaks`). That is about sizes: a day file with blocks of another kind
  but the same sizes leaves sar in step, and told of the wrong kind (`KindsMistaken`); if the kinds agree
  too, it finds every array in its place (`RunTold`).
- `-L` protects records from one another as long as no collector comes from another file believing to
  hold the lock: the flag survives a rotation, the lock does not. Then records of more than one block
  can be destroyed for good (`RotationBreaks`); records of a single block cannot
  (`SingleWritesSafe`).
- The intervals of the lines of a pass add up to that of its average line if and only if the pass covers
  less than 2^32 jiffies (`AverageIsSum`).
- The columns of a CPU line total 100 if and only if the idle counter has not dropped, and the uptime
  before is not a 64-bit overflow to exactly 0 at a moment when a counter wraps (`SharesTotal100`).
- A device that vanishes from `iostat` and comes back is listed again if and only if its old slot has
  been given to another device by then and one is free (`ReturnIff`, `HiddenOnReturn`,
  `ListedOnReturn`); if no new device ever appears, it is hidden for good (`FixedDevices`).
- If `iostat` cannot open the statistics file it prints the report before with the two samples of every
  device exchanged (`FailedReport`), and the report after that compares with a sample too old
  (`AfterFailure`); reports after two good readings in a row are right (`RightReport`).
- `ioc_ito26` has no name for 2^32 - 1, and disk numbers collide if and only if they agree in 32 bits
  (`Ito26`, `NamesEqualIff`, `OverflowCollides`).
- Names with a number for the disk need not differ. On implicit controllers they do if and only if no disk
  loses digits to its partition so that it reads as another disk (`ImplicitIff`); if all minors get
  names, that comes down to the suffixes of the partitions (`ImplicitSuffixes`), and, if the clash is a
  disk number at all, to there being no partitions or a separator that is not all digits
  (`ImplicitClosed`). With controllers in the name they differ if and only if no two minors clash, on
  one controller or on two (`ExplicitIff`): eleven disks can be enough (`ElevenDisks`).
- An indirect `ioconf` record that names itself leaves an entry without a configuration
  (`AddIndirect`).
- `iw_print_key` looks at the size of the buffer, but not for an empty key (`PrintKey`).
- The two encoders of frequencies differ in the last two of nine digits (`VersionsCompared`), and the
  two decoders on negative exponents (`Freq2Float`).
- 1, 2, 3 and 6 dBm do not survive the conversion to milliwatts and back; negative powers all become
  one milliwatt (`RoundTripIff`).

## Model

| member | source | states |
|---|---|---|
| `Framing.ReadEncoded` | apps/sysstat-6.0.1/sar.c:1139-1160 | Reading a written record gives it back and leaves exactly what follows it. |
| `Framing.ReadSound` | apps/sysstat-6.0.1/sar.c:1139-1160 | Whatever is read as a record is the encoding of that record, with the announced blocks. |
| `Framing.ReadAllPrefix` | apps/sysstat-6.0.1/sar.c:1285-1387 | Whole records at the front are listed first and in order, whatever bytes follow. |
| `Framing.ReadAllEncoded` | apps/sysstat-6.0.1/sar.c:1285-1387 | The reader recovers every record written, in order, and reaches the end cleanly. |
| `Framing.ReadAllSound` | apps/sysstat-6.0.1/sa_common.c:557-577 | Input read to its end without complaint is nothing but whole records. |
| `Framing.CutRecord` | apps/sysstat-6.0.1/sa_common.c:557-577 | A record cut anywhere is reported as an unexpected end, never taken for a shorter record. |
| `SaFormat.HeaderRoundTrip` | apps/sysstat-6.0.1/sa.h:211-252 | Decoding a header gives back every field that was encoded. |
| `SaFormat.HeaderCanonical` | apps/sysstat-6.0.1/sa.h:211-252 | Encoding undoes decoding: no two byte strings are one header. |
| `SaFormat.ActivityFiles` | apps/sysstat-6.0.1/sar.c:1139-1160 | The reader accepts a file with header h and records r if and only if it is the header followed by exactly those records, each of the announced shape. |
| `SaFormat.AppendRecord` | apps/sysstat-6.0.1/sadc.c:512-555 | Appending a record of the announced shape adds it at the end of the listing and changes nothing else. |
| `SaFormat.FreshFile` | apps/sysstat-6.0.1/sadc.c:563-586 | A header alone is an activity file without records. |
| `SaFormat.CutRecordIsDamage` | apps/sysstat-6.0.1/sa_common.c:557-577 | A file cut inside its last record is reported as damaged. |
| `SaCounts.HeaderAnnounces` | apps/sysstat-6.0.1/sadc.c:416-463 | A new header announces the blocks that will be written; in a file if and only if no processes are monitored. |
| `SaCounts.AppendFits` | apps/sysstat-6.0.1/sadc.c:610-692 | Taking over a file's counts makes all later records fit its header, if and only if the header has no disk count without the disk activity. |
| `SaCounts.RotationStaysInStep` | apps/sysstat-6.0.1/sadc.c:1646-1669 | After a rotation the header on the pipe announces what will be written if and only if it announces the same blocks as the header found in the new file. |
| `SaCounts.RotationOutOfStep` | apps/sysstat-6.0.1/sadc.c:1646-1669 | A day file with one interface less makes it fail. |
| `SaCounts.RecordFits` | apps/sysstat-6.0.1/sadc.c:512-555 | Every record formed has the blocks its counts call for, whatever was sampled. |
| `SaCounts.FitTo` | apps/sysstat-6.0.1/sadc.c:512-555 | A block has its announced size: what was sampled, cut or filled with zeros. |
| `SaCounts.Stamp` | apps/sysstat-6.0.1/sadc.c:473-500 | The structure carries its record type, and is otherwise what was sampled. |
| `SaBlocks.RecordCarries` | apps/sysstat-6.0.1/sadc.c:521-555 | For every sample and all counts: a record has a block for exactly the kinds that the counts call for, in the order cpu, irq, pid, serial, irqcpu, iface, disk, and each block is, byte for byte, its own array of the sample, cut or zero-filled. |
| `SaBlocks.SameCarries` | apps/sysstat-6.0.1/sadc.c:521-555 | Under counts that call for the same kinds and sizes of blocks a record carries the same. |
| `SaBlocks.HeaderTells` | apps/sysstat-6.0.1/sadc.c:416-463 | A new header tells of the same kinds and sizes of blocks as the counts it was made from. |
| `SaBlocks.ForcedTells` | apps/sysstat-6.0.1/sadc.c:610-692 | Counts that were forced to those of a file call for the kinds and sizes of blocks its header tells of. |
| `SaBlocks.SameWriterBlocks` | apps/sysstat-6.0.1/sadc.c:521-555 | Same kinds and sizes, same frame. |
| `SaFlags.SetOne` | apps/sysstat-6.0.1/sadc.c:328-375 | Setting a flag sets its bit and changes no other of the 32. |
| `SaFlags.ClearOne` | apps/sysstat-6.0.1/sadc.c:679-681 | Clearing a flag clears its bit and changes no other. |
| `SarPipe.InStepAppend` | apps/sysstat-6.0.1/sar.c:1395-1508 | Sending one more item keeps the stream in step if and only if the reader awaits just that item. |
| `SarPipe.ReadItemsEncoded` | apps/sysstat-6.0.1/sar.c:1395-1508 | A reader in step recovers exactly the headers and records sent, for any number of headers in between. |
| `SarPipe.ReadItemsInStep` | apps/sysstat-6.0.1/sar.c:1168-1193 | Whatever the bytes, what sar takes from them is in step with what it awaits. |
| `SarPipe.InStepIffRead` | apps/sysstat-6.0.1/sar.c:1395-1508 | The reader recovers a stream if and only if it is in step: each header where one is awaited, each record with the blocks of the header before it. |
| `SarPipe.MismatchBreaks` | apps/sysstat-6.0.1/sar.c:1168-1193 | One record with other blocks than announced, and what sar reads is not what was sent, whatever follows. |
| `SarPipe.Pipe.SaRead` | apps/sysstat-6.0.1/sar.c:1060-1079 | For every chunking the bytes asked for arrive in order; end of file is reported if and only if there are too few. |
| `SarPipe.Pipe.ReadHeaderData` | apps/sysstat-6.0.1/sar.c:1266-1277 | On any bytes: the header at the front, or none if there are too few bytes or the magic is wrong. |
| `SarPipe.Pipe.ReadStatBunch` | apps/sysstat-6.0.1/sar.c:1168-1193 | On any bytes: the structure and each block announced, or none if the input ends within them. |
| `SarPipe.ReadStats` | apps/sysstat-6.0.1/sar.c:1395-1508 | For every chunking sar takes exactly the items that its input stands for, up to the one at which its count or its end time is reached, and finishes if and only if it gets there. |
| `SarPipe.LoopTakesCount` | apps/sysstat-6.0.1/sar.c:1476-1503 | Without an end time sar finishes after exactly as many records as were asked for, or takes all there is. |
| `SarPipe.LoopTakesUntil` | apps/sysstat-6.0.1/sar.c:1476-1503 | With an end time sar takes records in order up to the first that is too late, or as many as were asked for, and finishes if and only if it gets there; else it takes all there is. |
| `Sadc.FileSystem.Create` | apps/sysstat-6.0.1/sadc.c:563-586 | The file is a header without records; no other file changes. |
| `Sadc.FileSystem.Append` | apps/sysstat-6.0.1/sadc.c:512-555 | The file gains one record at its end; no other file changes. |
| `Sadc.FilesAreWhole` | apps/sysstat-6.0.1/sar.c:1285-1387 | A whole file is, byte by byte, its header followed by its records. |
| `Sadc.Collector.AskForFlock` | apps/sysstat-6.0.1/sadc.c:384-408 | The lock is granted if and only if it is not wanted or free; it is then remembered; a refusal is fatal only if asked to be. |
| `Sadc.Collector.CreateSaFile` | apps/sysstat-6.0.1/sadc.c:563-586 | The file is recreated with a header of the counts in force if and only if the lock is not refused; else nothing changes. |
| `Sadc.Collector.OpenOfile` | apps/sysstat-6.0.1/sadc.c:610-692 | It succeeds if and only if the file is empty, or foreign under -F, or this machine's, or another's under -F, and creating is not refused the lock; new state, exit code and lock are those of the specification; afterwards every record formed fits the file. |
| `Sadc.Collector.Adopt` | apps/sysstat-6.0.1/sadc.c:634-690 | The flags and counts of a true activity file are taken over, or it is replaced, or the collector exits. |
| `Sadc.Collector.FormRecord` | apps/sysstat-6.0.1/sadc.c:512-555 | The bytes of a record are its encoding: the structure with its mark, and then blocks that carry the sample, each array in its own place. |
| `Sadc.Collector.WriteStats` | apps/sysstat-6.0.1/sadc.c:512-555 | Exactly one whole record is added to the file, or nothing at all if and only if the lock is refused. |
| `Sadc.Collector.WriteDummyRecord` | apps/sysstat-6.0.1/sadc.c:473-500 | Exactly one restart mark is added, or the collector exits without a change if and only if the lock is refused. |
| `Sadc.Collector.EmitStats` | apps/sysstat-6.0.1/sadc.c:512-555 | Standard output gains one record. |
| `Sadc.Collector.EmitHeader` | apps/sysstat-6.0.1/sadc.c:416-463 | Standard output gains one header of the counts in force. |
| `Sadc.Collector.SaSysInit` | apps/sysstat-6.0.1/sadc.c:328-375 | Counts and activity flags become those of the machine; the number of processes stays. |
| `Sadc.Collector.CollectSample` | apps/sysstat-6.0.1/sadc.c:1611-1644 | The sample goes to the pipe, marked exactly if the files are to be rotated, and to the file unless the lock is refused. |
| `Sadc.Collector.RotateFiles` | apps/sysstat-6.0.1/sadc.c:1646-1669 | A header to the pipe, the new file opened, and the same sample written to it, or the exit of opening it. |
| `Sadc.Collector.OneTurn` | apps/sysstat-6.0.1/sadc.c:1611-1694 | One turn does to files, pipe, counts and lock what the specification says. |
| `Sadc.Collector.RwSaStatLoop` | apps/sysstat-6.0.1/sadc.c:1603-1696 | The whole loop: files, pipe, counts, lock and outcome are those of the specification. |
| `Sadc.Collector.ServeRun` | apps/sysstat-6.0.1/sadc.c:1858-1876 | The loop or, without an interval, one restart mark. |
| `Sadc.RunSadc` | apps/sysstat-6.0.1/sadc.c:1832-1876 | What a run leaves in every file, what it sends, byte by byte, and how it ends are given by the run and the files it found. |
| `Sadc.RunAll` | apps/sysstat-6.0.1/sadc.c:1708-1876 | After any number of runs every file is what the runs make of the files that were there first. |
| `Sadc.Watch` | apps/sysstat-6.0.1/sar.c:1395-1508 | sadc and sar together, for every chunking: sar takes of what it reads exactly what its count and end time allow, and what it reads is what was sent if and only if no rotation that is followed by another sample leads to a file with other blocks. |
| `Collecting.OpenIff` | apps/sysstat-6.0.1/sadc.c:610-692 | When opening succeeds, which counts are then in force, and when it takes the lock; and the exit code if it does not: 3 for a foreign file without -F, else 1. |
| `Collecting.OpenKeeps` | apps/sysstat-6.0.1/sadc.c:610-692 | A file that has been opened takes every record formed with the counts in force. |
| `Collecting.LoopDone` | apps/sysstat-6.0.1/sadc.c:1603-1696 | The loop goes through all its turns if and only if every day file it comes to can be opened. |
| `Collecting.LoopKeeps` | apps/sysstat-6.0.1/sadc.c:1603-1696 | Every file stays whole, however the loop ends. |
| `Collecting.RunsKeep` | apps/sysstat-6.0.1/sadc.c:1708-1876 | Every file stays whole over any number of runs. |
| `Collecting.StartFlags` | apps/sysstat-6.0.1/sadc.c:328-375 | Bit by bit, the flags at the start of a run: those asked for, without the processes if there is a file, and those of serial lines and network interfaces if the machine has any. |
| `Collecting.FreshStart` | apps/sysstat-6.0.1/sadc.c:416-463 | A run that starts a file, or has none, announces the counts of the machine in the file and on standard output; the flags are those of the start, or those of the file it replaces. |
| `CollectingFiles.TurnWrites` | apps/sysstat-6.0.1/sadc.c:1611-1669 | A turn writes its sample, array by array under the header of each file, to the current file and, when rotating, to the new one, except where the lock is refused. |
| `CollectingFiles.LoopWrites` | apps/sysstat-6.0.1/sadc.c:1603-1696 | Every sample is written once, in order, to the file that is due for it, and nothing else is written; each record carries its sample in the blocks that the header of its file tells of. |
| `CollectingFiles.DueIsPlan` | apps/sysstat-6.0.1/sadc.c:1681-1690 | Turn by turn: which file is in use, to which day file a turn rotates, and whether the lock is held, from the day files current at the end of each turn. |
| `CollectingFiles.DueFree` | apps/sysstat-6.0.1/sadc.c:1681-1690 | Where no lock is refused: without rotation every sample goes to the one file; with it each sample but the first goes to the day file current before its turn, and is written to a second file, the one in use, if and only if that is another. |
| `CollectingFiles.RunRecords` | apps/sysstat-6.0.1/sadc.c:1832-1876 | A run writes the samples due of each turn, or one restart mark, all of it if it is not cut short, with every array of a sample in the place that the header of the file gives it; and the files hold what they held and what the run did. |
| `CollectingFiles.SampleWritten` | apps/sysstat-6.0.1/sadc.c:1603-1696 | In a run that is not cut short the sample of every turn whose lock is not refused is in the day file current before that turn, or in the one file without rotation. |
| `CollectingFiles.MarkRun` | apps/sysstat-6.0.1/sadc.c:473-500 | A run without an interval comes to its end if and only if it has a file that opens and the lock is not refused; then the file has its records, or none if it was created, and one restart mark. Else the exit code is 2 without a file, 3 for a foreign file without -F, and 1 for the rest. |
| `CollectingFiles.RunsRecord` | apps/sysstat-6.0.1/sadc.c:1708-1876 | The same for any number of runs, one after the other. |
| `CollectingFiles.RunsLose` | apps/sysstat-6.0.1/sadc.c:610-692 | Without -F no record that was in a file is ever lost or moved, over any number of runs. |
| `CollectingFiles.RotationOverlaps` | apps/sysstat-6.0.1/sadc.c:1646-1669 | A rotation ends the old file and begins the new one with one and the same sample, all its arrays included, under the header of each. |
| `CollectingPipe.LoopSends` | apps/sysstat-6.0.1/sadc.c:1603-1696 | The loop sends one record a turn, marked exactly if the turn rotates the files, and one header after every mark, up to the turn at which it exits. Each record carries its sample in the blocks of the counts in force, which after a header are those that the file found there leads to. |
| `CollectingPipe.RunPipe` | apps/sysstat-6.0.1/sadc.c:1832-1876 | A run sends a header with the counts in force once its file is open, and then what its turns are due, all of it if it is not cut short: the sample of each turn, marked and followed by a header if and only if the day file current before that turn is not the one in use. |
| `CollectingPipe.RecordFollows` | apps/sysstat-6.0.1/sadc.c:1611-1644 | A record formed with the announced counts keeps the pipe in step. |
| `CollectingPipe.RecordBreaks` | apps/sysstat-6.0.1/sadc.c:1611-1644 | A record formed with other counts does not. |
| `CollectingPipe.HeaderFollows` | apps/sysstat-6.0.1/sadc.c:591-602 | A header sent where one is awaited keeps it in step and announces the counts in force. |
| `CollectingPipe.LoopInStep` | apps/sysstat-6.0.1/sadc.c:1603-1696 | The stream of the loop is in step if and only if no rotation that is followed by another sample has found a file with other blocks. |
| `CollectingPipe.RunInStep` | apps/sysstat-6.0.1/sar.c:1476-1503 | sar reads from a run exactly what was sent under that condition and no other. |
| `CollectingPipe.RunTold` | apps/sysstat-6.0.1/sar.c:1476-1503 | If no rotation that is followed by another sample leads to a file with other kinds of blocks, sar reads what was sent and finds, in the blocks that the header last sent tells of, the samples, each array in its own place. |
| `CollectingPipe.KindsMistaken` | apps/sysstat-6.0.1/sadc.c:1646-1669 | But a file of two interfaces after nine serial lines, whose blocks have the same size, leaves sar in step and told of the wrong kind. |
| `SaLock.StepKeeps` | apps/sysstat-6.0.1/sadc.c:384-555 | No step of any collector breaks the invariant: header, whole records, at most one record in the making, written only by the lock's owner. |
| `SaLock.StepConserves` | apps/sysstat-6.0.1/sadc.c:473-555 | A record begun is either finished and in the log, or the one in the making. |
| `SaLock.RunKeeps` | apps/sysstat-6.0.1/sadc.c:384-555 | Over any interleaving the records are exactly those begun under the lock, in that order. |
| `SaLock.ReadersView` | apps/sysstat-6.0.1/sar.c:1139-1160 | At any moment a reader finds all finished records; within a record the file ends unexpectedly, between records it is complete. |
| `SaLock.Interleavings` | apps/sysstat-6.0.1/sadc.c:384-555 | From any existing activity file and for any schedule of any number of collectors, none of which comes from another file believing to hold the lock, the file grows by exactly the records begun under the lock. |
| `SaLock.RotationBreaks` | apps/sysstat-6.0.1/sadc.c:512-520 | If records have more than one block, a collector that comes from another file with the flag still set can destroy one: there is a schedule after which neither record is in its place, whatever happens later. |
| `SaLock.SingleWritesSafe` | apps/sysstat-6.0.1/sadc.c:512-555 | If records have one block, the file is whole at every moment of every schedule. |
| `Slices.SecondsNearest` | apps/sysstat-6.0.1/sa_common.c:180-225 | Times are rounded to the nearest second, halves upwards. |
| `Slices.SelectedIff` | apps/sysstat-6.0.1/sa_common.c:180-225 | The two candidates tried are enough: an entry is selected if and only if its window contains some multiple of the interval. |
| `Slices.Tiling` | apps/sysstat-6.0.1/sa_common.c:180-225 | The windows of a steady run tile: each moment of its span lies in exactly one. |
| `Slices.ExactCover` | apps/sysstat-6.0.1/sa_common.c:180-225 | Each multiple of the interval in the span has exactly one entry, which is selected. |
| `Slices.Slicer.NextSlice` | apps/sysstat-6.0.1/sa_common.c:180-225 | The method with its static variable shows a record if and only if a multiple of the interval lies in the window since the record before. |
| `Slices.PassCover` | apps/sysstat-6.0.1/sa_common.c:180-225 | The exact cover for the uptimes read in one pass. |
| `Slices.EntryWidthNearest` | apps/sysstat-6.0.1/sa_common.c:180-225 | The time of an entry, and the time since the entry before it, are those of the uptimes to half a second, as long as less than 2^32 jiffies have passed. |
| `Slices.RegularPace` | apps/sysstat-6.0.1/sa_common.c:180-225 | Uptimes that are so many whole seconds apart are entries at a steady pace. |
| `Slices.DateCmpOrders` | apps/sysstat-6.0.1/sa_common.c:256-270 | The comparison is that of the seconds of the day. |
| `Slices.Masked` | apps/sysstat-6.0.1/sa_common.c:295-327 | The difference cut to 32 bits is the true one whenever that is below 2^32. |
| `SarPass.Pass` | apps/sysstat-6.0.1/sar.c:1201-1258 | What a pass shows and uses up: no restart mark is passed over, and it stops at the end, at a mark or when the count is reached. |
| `SarPass.LinesAppend` | apps/sysstat-6.0.1/sar.c:864-905 | One more record shown adds one line, against the record shown before it. |
| `SarAverage.Telescope` | apps/sysstat-6.0.1/sar.c:864-905 | The intervals and advances of the lines of a pass add up to those from the base to the last record shown. |
| `SarAverage.AverageIsSum` | apps/sysstat-6.0.1/sar.c:753-777 | The average line covers the sum of the lines: for the counters always, for the intervals if and only if the pass covers less than 2^32 jiffies. |
| `SarAverage.PassRising` | apps/sysstat-6.0.1/sar.c:1201-1258 | Whatever a pass leaves out of a rising segment, what it shows rises from line to line. |
| `SarAverage.SegmentAverage` | apps/sysstat-6.0.1/sar.c:753-777 | For every rising boot segment of less than 2^32 jiffies the lines of every pass add up to its average line. |
| `SarAverage.ReportAddsUp` | apps/sysstat-6.0.1/sar.c:753-777 | The same on what is printed: the average line of such a segment has the number of the lines before it, the sum of their gauges, and the counter advance and the interval that they add up to. |
| `SarAverage.ReportComplete` | apps/sysstat-6.0.1/sar.c:753-777 | sar gives up on no average of such a segment. |
| `SarPass.ProperIff` | apps/sysstat-6.0.1/sar.c:753-777 | It gives up on an average if and only if two of the uptimes it is over, on either clock if there are two, agree in 32 bits. |
| `SarChoice.PassIsChosen` | apps/sysstat-6.0.1/sar.c:1201-1258 | Without -s, -e and a count a pass shows exactly the records selected by interval. |
| `SarChoice.PassShows` | apps/sysstat-6.0.1/sar.c:864-905 | With any options: of the records selected by interval and not before -s a pass shows, in file order, those that come before the first one later than -e, and no more than the count; it is cut short if and only if there is such a one or the count is reached. Times are compared as seconds of the day. |
| `SarChoice.SegmentIs` | apps/sysstat-6.0.1/sar.c:1369-1382 | Wherever the passes stop, a segment ends with the next restart mark, or with the file. |
| `SarChoice.ReplayIs` | apps/sysstat-6.0.1/sar.c:1313-1384 | The report in full, from the records: the marks before the first record in hours, the passes over what comes after it up to the next mark, that mark, and the same again for the rest. |
| `SarChoice.ReplayNone` | apps/sysstat-6.0.1/sar.c:1318-1336 | Without a record in hours the report is the marks. |
| `SarChoice.RegularPaced` | apps/sysstat-6.0.1/sar.c:1201-1258 | Records whose uptimes are so many whole seconds apart are at a steady pace. |
| `SarChoice.PassCovers` | apps/sysstat-6.0.1/sar.c:1201-1258 | Over a boot segment at a steady pace such a pass shows exactly one record for each multiple of the interval in the time covered. |
| `SarPass.Seek` | apps/sysstat-6.0.1/sar.c:1318-1336 | The search for a base ends at a record with statistics or at the end of the file. |
| `SarChoice.SeekFinds` | apps/sysstat-6.0.1/sar.c:1318-1336 | The base is the first record of statistics not before -s and before -e, in seconds of the day; none is found if and only if there is none. |
| `SarPass.NextMarker` | apps/sysstat-6.0.1/sar.c:1369-1378 | The next restart mark: none comes before it. |
| `SarPass.EachRestartOnce` | apps/sysstat-6.0.1/sar.c:1313-1384 | The marks printed are the marks of the file, each once and in order. |
| `SarReplay.Sar.WriteStats` | apps/sysstat-6.0.1/sar.c:864-905 | A record is shown if and only if it is selected and within the hours asked for, with the other buffer as its predecessor; one that is too late ends the pass. |
| `SarReplay.Sar.WriteStatsAvg` | apps/sysstat-6.0.1/sar.c:753-777 | The average line is over the base and the last record shown, and refused if and only if an interval is null. |
| `SarReplay.Sar.ReadNext` | apps/sysstat-6.0.1/sar.c:1216-1240 | One turn keeps the last shown record, or the base, in the buffer not being read into, and what is left to show is what the rest of the file gives. |
| `SarReplay.Sar.RunPass` | apps/sysstat-6.0.1/sar.c:1201-1240 | The loop shows exactly what a pass has to show, and stops where it has to. |
| `SarReplay.Sar.HandleCurrActStats` | apps/sysstat-6.0.1/sar.c:1201-1258 | Whatever state earlier passes left behind, a pass prints exactly its lines and its average. |
| `SarReplay.Sar.FindBase` | apps/sysstat-6.0.1/sar.c:1318-1336 | The base and the marks printed before it are those of the search. |
| `SarReplay.Sar.AllPasses` | apps/sysstat-6.0.1/sar.c:1349-1367 | Every activity's pass shows the same records of the segment. |
| `SarReplay.Sar.SkipToRestart` | apps/sysstat-6.0.1/sar.c:1369-1378 | The file is left behind the next mark, or at its end. |
| `SarReplay.Sar.EndSegment` | apps/sysstat-6.0.1/sar.c:1369-1382 | The mark that ends the segment is printed, once. |
| `SarReplay.Sar.ReadSegment` | apps/sysstat-6.0.1/sar.c:1313-1384 | A segment prints its part of the replay and uses up at least one record if there is to be another. |
| `SarReplay.Sar.ReadStatsFromFile` | apps/sysstat-6.0.1/sar.c:1285-1387 | The loop ends, and the whole output is that of the replay, or, if some average is over a null interval, that of the replay up to just before the first such average; every mark is printed once. |
| `SarFile.ReadFile` | apps/sysstat-6.0.1/sar.c:1139-1160 | Reading a file record by record gives its view. |
| `SarFile.DecodedReads` | apps/sysstat-6.0.1/sa.h:254-259 | A structure with one number in its bytes 0 to 7 and another in its bytes 16 to 23 is a record with these as its uptime and that of its first processor. |
| `SarFile.SarFromFile` | apps/sysstat-6.0.1/sar.c:1285-1387 | From the bytes of a file: refused if it is not a whole activity file, else the replay of its decoded records, up to the first average over a null interval. |
| `SarFile.CollectAndReport` | apps/sysstat-6.0.1/sar.c:1285-1387 | From end to end: whatever runs of sadc there have been, sar -f prints the replay of what they have made of the file. |
| `CpuShare.DeltaExact` | apps/sysstat-6.0.1/common.c:422-440 | An advance below 2^32 is recovered exactly from a 32-bit or a 64-bit counter, without knowing which it is. |
| `CpuShare.UptimeAdvance` | apps/sysstat-6.0.1/sa_common.c:295-327 | The masked interval is the sum of the five advances, whichever of the counters wrapped, if and only if the uptime before is not 0 by overflow at a moment when one wraps. |
| `CpuShare.SharesTotal100` | apps/sysstat-6.0.1/sar.c:317-331 | The columns are the shares of the interval, and total 100 if and only if the idle counter did not drop and the interval is the true one. |
| `IocConv.ZerolessValue` | apps/sysstat-6.0.1/ioconf.c:89-116 | Positional evaluation undoes the conversion without a zero, whose digits are all in 1..radix. |
| `IocConv.ValueZeroless` | apps/sysstat-6.0.1/ioconf.c:89-116 | And the conversion undoes evaluation, for every digit string. |
| `IocConv.ValueRange` | apps/sysstat-6.0.1/ioconf.c:89-116 | The values of the strings of one length form one interval. |
| `IocConv.EarlierIsLess` | apps/sysstat-6.0.1/ioconf.c:89-116 | For one length dictionary order is the order of values. |
| `IocConv.ZerolessOrder` | apps/sysstat-6.0.1/ioconf.c:89-116 | Numbers and digit strings without a zero have the same order, shorter strings first. |
| `IocConv.StandardValue` | apps/sysstat-6.0.1/ioconf.c:89-116 | Positional evaluation undoes the ordinary conversion, which has no leading zero. |
| `IocConv.ValueStandard` | apps/sysstat-6.0.1/ioconf.c:89-116 | And the ordinary conversion undoes evaluation. |
| `IocConv.IocConv` | apps/sysstat-6.0.1/ioconf.c:89-116 | The loop with its borrow ends and fills the buffer with the ordinary digits, or with those of val + 1 without a zero, or with nothing if val + 1 overflows. |
| `IocConv.Ito10` | apps/sysstat-6.0.1/ioconf.c:119-122 | Ordinary decimal. |
| `IocConv.Ito26` | apps/sysstat-6.0.1/ioconf.c:124-127 | Letters, except for the largest number. |
| `IocNames.LettersInjective` | apps/sysstat-6.0.1/ioconf.c:124-127 | Every number has a nonempty string of letters from which it can be read. |
| `IocNames.LettersOnto` | apps/sysstat-6.0.1/ioconf.c:124-127 | Every nonempty string of letters is that of a number. |
| `IocNames.LettersOrder` | apps/sysstat-6.0.1/ioconf.c:124-127 | Names sort as their numbers do: shorter first, then alphabetically. |
| `IocNames.DecimalReads` | apps/sysstat-6.0.1/ioconf.c:119-122 | Decimal is digits without a leading zero, and reading it gives the number. |
| `IocNames.TakeApart` | apps/sysstat-6.0.1/ioconf.c:376-412 | Letters, a fixed string and a number can be told apart again, whatever the fixed string. |
| `IocNames.NamesDiffer` | apps/sysstat-6.0.1/ioconf.c:352-416 | Among all devices whose majors share a configuration with letters and implicit controllers no two have the same name, as long as disk numbers fit in 32 bits. |
| `IocNames.NamesEqualIff` | apps/sysstat-6.0.1/ioconf.c:352-416 | Without any bound: two of them share a name if and only if their disk numbers agree in 32 bits and their partitions agree. |
| `IocNames.SuffixIffPartition` | apps/sysstat-6.0.1/ioconf.c:421-438 | A name ends in a number if and only if it is not that of a whole disk. |
| `IocNames.OverflowCollides` | apps/sysstat-6.0.1/ioconf.c:376-412 | So can they when disk numbers exceed 32 bits. |
| `IocNumbered.NumberedEqualIff` | apps/sysstat-6.0.1/ioconf.c:352-416 | Numbered disks, implicit controllers, and no partitions or a separator that is not all digits: two devices share a name if and only if disk number, in 32 bits, and partition agree. |
| `IocNumbered.NumberedDiffer` | apps/sysstat-6.0.1/ioconf.c:352-416 | So no two have the same name as long as disk numbers fit in 32 bits. |
| `IocNumbered.ExplicitLettersDiffer` | apps/sysstat-6.0.1/ioconf.c:352-416 | With controllers in the name and letters for the disks no two devices have the same name. |
| `IocNumbered.ExplicitNumbersDiffer` | apps/sysstat-6.0.1/ioconf.c:352-416 | With numbers for both neither, if neither separator is all digits; the exact condition is in IocClash.ExplicitIff. |
| `IocNumbered.PartitionsCollide` | apps/sysstat-6.0.1/ioconf.c:352-416 | If only digits stand before the partition, partition 1 of disk 1 has the name of a whole disk, if that disk is among the minors that get names. |
| `IocNumbered.ControllersCollide` | apps/sysstat-6.0.1/ioconf.c:352-416 | If only digits stand between controller and disk, two controllers have disks of one name, if those disks are among the minors that get names. |
| `IocNumbered.FewPartitionsDiffer` | apps/sysstat-6.0.1/ioconf.c:376-412 | For at most ten partitions, with fewer disks than that no two devices have the same name. |
| `IocClash.NumberTailIff` | apps/sysstat-6.0.1/ioconf.c:376-412 | A number with something behind it and another are written the same if and only if they are the same, or one number loses digits to what stands behind it. |
| `IocClash.ExplicitIff` | apps/sysstat-6.0.1/ioconf.c:352-416 | Numbered disks, controllers in the name: all devices that get names get different ones, over all controllers, if and only if no two minors clash; the condition is about the minors and the fixed strings alone. |
| `IocClash.ClashCollides` | apps/sysstat-6.0.1/ioconf.c:352-416 | Two minors that clash have one name on controllers 1 and the one that the lost digits make after a 1. |
| `IocClash.DiskClashNeeds` | apps/sysstat-6.0.1/ioconf.c:376-412 | A clash on one controller needs partitions with nothing but digits before them, and a disk no lower than the lost digits make after a 1. |
| `IocClash.ElevenDisks` | apps/sysstat-6.0.1/ioconf.c:352-416 | With the digit 1 between the numbers, disk 10 of controller 1 and disk 0 of controller 11 have one name. |
| `IocClash.ImplicitEqual` | apps/sysstat-6.0.1/ioconf.c:352-416 | Implicit controllers: two devices share a name if and only if they are one, or the disk of one loses digits to its partition and reads as the disk of the other. |
| `IocClash.ImplicitIff` | apps/sysstat-6.0.1/ioconf.c:352-416 | All devices that get names get different ones, over all controllers, if and only if there are no such two among their disks and partitions. |
| `IocClash.ImplicitSuffixes` | apps/sysstat-6.0.1/ioconf.c:352-416 | If all minors get names, if and only if no suffix of a partition is the end of another with digits before it that make a disk number after a 1. |
| `IocClash.ImplicitClosed` | apps/sysstat-6.0.1/ioconf.c:352-416 | And if the clash is a disk number at all, if and only if there are no partitions or what stands before them is not all digits. |
| `IocTable.Table.FreeReferences` | apps/sysstat-6.0.1/ioconf.c:53-64 | Entries that only refer are released, each object once and none after its release; owners stay. |
| `IocTable.Table.FreeOwners` | apps/sysstat-6.0.1/ioconf.c:66-73 | What is left is released with the configurations it owns, each once. |
| `IocTable.Table.IocFree` | apps/sysstat-6.0.1/ioconf.c:48-74 | From any sound table, the table is empty afterwards and nothing was released twice. |
| `IocTable.Table.Prepare` | apps/sysstat-6.0.1/ioconf.c:161-167 | Zeroing the spares changes nothing that can be seen in the table; if an allocation fails all is released. |
| `IocTable.Table.AddIndirect` | apps/sysstat-6.0.1/ioconf.c:177-215 | The entry shares its referent's configuration; the table stays sound if and only if the referent is another major. |
| `IocTable.Table.AddDirect` | apps/sysstat-6.0.1/ioconf.c:278-321 | The entry owns the configuration of its line; no other major is affected. |
| `IocTable.Table.AddException` | apps/sysstat-6.0.1/ioconf.c:240-276 | The first exception is added to the configuration, for all majors that share it and for no other. |
| `IocTable.AgreesDirect` | apps/sysstat-6.0.1/ioconf.c:278-321 | A direct record in a table that shows what the lines so far mean makes it show what they and this one mean. |
| `IocTable.AgreesIndirect` | apps/sysstat-6.0.1/ioconf.c:177-215 | The same for an indirect record. |
| `IocTable.AgreesException` | apps/sysstat-6.0.1/ioconf.c:240-276 | The same for an exception record, which reaches all majors of the group. |
| `IocLines.ParsedIs` | apps/sysstat-6.0.1/ioconf.c:141-339 | Looked at as a whole: the configuration of a major is that of its last direct record, or of the major its last indirect record refers to at that point, with the first exception that any major of that configuration was given; the controller is that of its last record. |
| `IocLines.FirstStays` | apps/sysstat-6.0.1/ioconf.c:252-266 | Later exceptions change nothing. |
| `IocLines.EntryReads` | apps/sysstat-6.0.1/ioconf.c:382-412 | A name that is not an exception consists of the base, the controller if it is explicit, the disk, counted on over implicit controllers in 32 bits, as letters or in decimal, and the partition if there is one; each number can be read back. |
| `IocLines.NameMeans` | apps/sysstat-6.0.1/ioconf.c:352-416 | Hence the name of every device, from the lines alone. |
| `IocTable.Table.OneLine` | apps/sysstat-6.0.1/ioconf.c:156-322 | After each line the table is sound and shows the meaning of the lines so far, and the spares are out of its reach. |
| `IocTable.Table.IocInit` | apps/sysstat-6.0.1/ioconf.c:141-339 | For every sequence of lines without a harmful one (an indirect record that is followed although its major is outside the array or its own referent) the table is sound and shows what they mean, or is empty after a failed allocation; the result counts the direct records. |
| `IocTable.Table.IocName` | apps/sysstat-6.0.1/ioconf.c:352-416 | The name built step by step is that of the entry's configuration, the fixed name if it has no minors. |
| `IocTable.NameFromFile` | apps/sysstat-6.0.1/ioconf.c:141-416 | From the lines of the file to the name of a device: none if no line is a direct record or a number is out of range; "nodev" for unknown majors and for minors not below disks times partitions; for the minor of the first exception to the configuration of the major exactly the name given there, whichever major shares it; else a name that reads as base, controller, disk and partition. |
| `IostatSlots.Slots.SetEntriesInactive` | apps/sysstat-6.0.1/iostat.c:120-128 | All slots are marked, and nothing else changes. |
| `IostatSlots.Slots.FreeInactiveEntries` | apps/sysstat-6.0.1/iostat.c:135-144 | Exactly the slots still marked go out of use. |
| `IostatSlots.Slots.SaveDevStats` | apps/sysstat-6.0.1/iostat.c:288-326 | The sample goes to the slot that has the device's name, or else to the first free one, whose previous sample is cleared; a slot found by name is not put to use again; nothing else changes. |
| `IostatSlots.Slots.SaveFound` | apps/sysstat-6.0.1/iostat.c:288-326 | Saving one more device keeps the books of a scan and changes the headers as specified. |
| `IostatSlots.Slots.Scan` | apps/sysstat-6.0.1/iostat.c:640-767 | After mark, save and sweep the headers are those of the specification, and each slot in use pairs this scan's sample with that of the same device from the scan before, or with zero. |
| `IostatSlots.Slots.ReadDiskstats` | apps/sysstat-6.0.1/iostat.c:640-767 | After a reading the slots in use hold what there is to report; if the file cannot be opened both arrays and the slots in use are as they were. |
| `IostatSlots.Slots.WriteStat` | apps/sysstat-6.0.1/iostat.c:1013-1053 | The lines printed are those of the slots in use that the options let through, in order. |
| `IostatSlots.Slots.LinesRight` | apps/sysstat-6.0.1/iostat.c:1013-1053 | Every line says of a device what there is to report, and no device has two lines. |
| `IostatSlots.Slots.LinesComplete` | apps/sysstat-6.0.1/iostat.c:1013-1053 | No slot in use that the options let through is left out. |
| `IostatSlots.Slots.Round` | apps/sysstat-6.0.1/iostat.c:1066-1117 | A turn prints one line for every device to be reported and wanted, and no other, and leaves slots and arrays as the books say. |
| `IostatSlots.RwIoStatLoop` | apps/sysstat-6.0.1/iostat.c:1066-1117 | For every run of readings, some of which may fail, every report has one line for each device that is then listed and wanted, and no other, with the two samples that the readings make of it. A listed device has a line if and only if it is in the list of names, if there is one, and has had an operation, unless all are asked for. |
| `IostatBooks.RightReport` | apps/sysstat-6.0.1/iostat.c:1066-1117 | After two good readings in a row, or a first one, a report lists the devices then listed with their samples of this scan beside those of the scan before, if they were listed then, and beside zero if not. |
| `IostatBooks.FailedReport` | apps/sysstat-6.0.1/iostat.c:640-656 | After a failed reading the report is the one before with the two samples of every device exchanged. |
| `IostatBooks.AfterFailure` | apps/sysstat-6.0.1/iostat.c:640-656 | The next good reading compares with what that report called the present. |
| `IostatBooks.ListedAfter` | apps/sysstat-6.0.1/iostat.c:640-656 | Failed readings change nothing in the list. |
| `IostatListing.SavedListed` | apps/sysstat-6.0.1/iostat.c:288-326 | Saving a device lists it if and only if it was listed, or no slot has its name and one is free; no other device is affected. |
| `IostatListing.ScannedKeeps` | apps/sysstat-6.0.1/iostat.c:640-767 | A scan lists only devices that it has found, and all of those that were listed before. |
| `IostatListing.FirstSeen` | apps/sysstat-6.0.1/iostat.c:288-326 | A device is listed as soon as it is found for the first time, if there are slots for all names that have turned up. |
| `IostatListing.ListedSince` | apps/sysstat-6.0.1/iostat.c:1066-1117 | And in every report from then on, as long as it is found in every scan. |
| `IostatListing.ReturnIff` | apps/sysstat-6.0.1/iostat.c:288-326 | A device found in a scan is listed if and only if it was before, or no slot has its name any more at its turn and one is free. |
| `IostatListing.FixedDevices` | apps/sysstat-6.0.1/iostat.c:1066-1117 | If all devices there are show up in the first scan, a report lists exactly those found in every scan so far. |
| `IostatListing.HiddenOnReturn` | apps/sysstat-6.0.1/iostat.c:288-326 | A device that is away for one scan is not listed when it is back. |
| `IostatListing.ListedOnReturn` | apps/sysstat-6.0.1/iostat.c:288-326 | It is if a new device has been given its slot in between. |
| `EventStream.Step` | apps/wireless_tools.28/iwlib.c:2598-2752 | Every call that takes something makes (bytes after current, bytes after value) smaller in lexicographic order, on every byte string. |
| `EventStream.HeaderAt` | apps/wireless_tools.28/iwlib.c:2613-2633 | Where the parts of an event are within a stream. |
| `EventStream.UnknownRead` | apps/wireless_tools.28/iwlib.c:2656-2662 | Unknown commands are passed over. |
| `EventStream.PointRead` | apps/wireless_tools.28/iwlib.c:2683-2737 | A point is read with its length and flags in the old layout and in the new, and with its payload, all tokens and no byte more, if and only if there is one, it has all its tokens, and their number is within the limits of the description; otherwise with none. |
| `EventStream.ValuesRead` | apps/wireless_tools.28/iwlib.c:2738-2750 | The values of an event are read one by one, and its padding is passed over. |
| `EventStream.EventsRead` | apps/wireless_tools.28/iwlib.c:2598-2752 | Every list of well-formed events is recovered in full and in order. |
| `EventStream.EventsThen` | apps/wireless_tools.28/iwlib.c:2598-2752 | Well-formed events at the front of a stream are recovered whatever bytes follow. |
| `EventStream.BrokenEnds` | apps/wireless_tools.28/iwlib.c:2613-2680 | A stream that breaks off in the header or in the first value of an event, or has an event no longer than its header, yields exactly the events before. |
| `EventStream.VersionsAgree` | apps/wireless_tools.28/iwlib.c:2652-2688 | The same events in the layouts of two versions are the same to the receiver. |
| `EventStream.Stream.Extract` | apps/wireless_tools.28/iwlib.c:2598-2752 | One call does one step, and reads no header and no fixed part outside the stream. |
| `EventStream.Stream.ExtractAll` | apps/wireless_tools.28/iwlib.c:2977-2997 | The loop ends on every byte string. |
| `EventStream.Receive` | apps/wireless_tools.28/iwlib.c:2977-2997 | From an encoded scan result to exactly its values. |
| `HexText.ScanSpaced` | apps/wireless_tools.28/iwlib.c:2004-2060 | White space skipped by sscanf leaves something in third place that is no colon. |
| `MacText.TextIsMac` | apps/wireless_tools.28/iwlib.c:1936-1955 | The text of an address is colon-separated pairs, each of them its byte. |
| `MacText.MacNtop` | apps/wireless_tools.28/iwlib.c:1936-1955 | The text is produced if and only if it fits with its terminator. |
| `MacText.MacAton` | apps/wireless_tools.28/iwlib.c:2004-2060 | Exactly the texts of colon-separated pairs, at most macmax of them (one even if macmax is less), are accepted, and give those bytes. |
| `MacText.RoundTrip` | apps/wireless_tools.28/iwlib.c:1936-2060 | Parsing undoes printing for every address of length 1 to macmax. |
| `KeyText.ReadGroup` | apps/wireless_tools.28/iwlib.c:1515-1552 | A group of digits is read as its bytes, then reading goes on at the separator. |
| `KeyText.ReadBadGroup` | apps/wireless_tools.28/iwlib.c:1515-1552 | A group with anything else in it is an error, after as many bytes as the position of the first bad character says. |
| `KeyText.ReadGroups` | apps/wireless_tools.28/iwlib.c:1515-1552 | Text without white space is read without error if and only if it is nonempty groups of digits, and then each odd group is read as if left-padded with a zero. |
| `KeyText.GroupsOfJoin` | apps/wireless_tools.28/iwlib.c:1515-1552 | The groups of a text are unique. |
| `KeyText.HexKey` | apps/wireless_tools.28/iwlib.c:1487-1571 | Hence the key of a hexadecimal text, cut to the longest key; text that is wrong is an error if and only if the groups before the mistake yield fewer bytes than that. |
| `KeyText.ReadHex` | apps/wireless_tools.28/iwlib.c:1507-1552 | The loop reads into its own buffer what the text says. |
| `KeyText.InKey` | apps/wireless_tools.28/iwlib.c:1487-1571 | The key becomes that of the text and keeps its remaining bytes; on an error it is unchanged. After "s:" it is the characters themselves, cut to the longest key; "p:" is an error. |
| `KeyText.KeyGroupsRead` | apps/wireless_tools.28/iwlib.c:1416-1464 | The groups printed for a key are valid groups whose bytes are the key. |
| `KeyText.PrintKey` | apps/wireless_tools.28/iwlib.c:1416-1464 | The text is two bytes to a group with dashes between, with stars for an unknown key; it fits the buffer with its terminator if and only if that has three bytes or the key is not empty and the buffer not either. |
| `KeyText.KeyOfPrinted` | apps/wireless_tools.28/iwlib.c:1416-1571 | Parsing a printed key gives it back, cut to the longest key. |
| `KeyText.RoundTrip` | apps/wireless_tools.28/iwlib.c:1416-1571 | Parsing undoes printing for every key of length 1 to the longest. |
| `FreqCodec.LeastExponent` | apps/wireless_tools.28/iwlib.c:907-915 | The exponent is the least that brings the frequency down to 10^9. |
| `FreqCodec.Float2FreqLoop` | apps/wireless_tools.28/iwlib.c:903-931 | The loop yields m*10^e <= f < (m+1)*10^e with 0 <= m <= 10^9 and the least e, for every f that is not negative. |
| `FreqCodec.Exponents` | apps/wireless_tools.28/iwlib.c:903-931 | How the exponents of the two versions compare. |
| `FreqCodec.VersionsCompared` | apps/wireless_tools.28/iwlib.c:903-931 | The library's version never exceeds the loop's; they agree below 10^9, and above it if and only if the two digits cleared are zero. |
| `FreqCodec.LibmError` | apps/wireless_tools.28/iwlib.c:916-930 | The library's version is short by less than one unit of its seventh digit. |
| `FreqCodec.AgreeOnSevenDigits` | apps/wireless_tools.28/iwlib.c:903-931 | Both are exact on every multiple of 10^(floor(log10 f) - 6). |
| `FreqCodec.Freq2Float` | apps/wireless_tools.28/iwlib.c:936-950 | The loop gives m*10^e if and only if e is not negative or m is zero. |
| `FreqCodec.ReencodeLoop` | apps/wireless_tools.28/iwlib.c:903-950 | Decoding and encoding again preserves the value of every mantissa up to 10^9. |
| `FreqCodec.ReencodeLibm` | apps/wireless_tools.28/iwlib.c:903-950 | What the library's version encoded is encoded again unchanged. |
| `PowerCodec.NextPower` | apps/wireless_tools.28/iwlib.h:149-149 | One dBm more is at least a quarter more power, also across decades. |
| `PowerCodec.Dbm2Mwatt` | apps/wireless_tools.28/iwlib.c:1125-1145 | The loops give 10^(d/10) times LOG10_MAGIC^(d mod 10), rounded down; 1 for negative d. |
| `PowerCodec.FitsInt` | apps/wireless_tools.28/iwlib.c:1125-1145 | The result fits a C int if and only if d <= 93. |
| `PowerCodec.Mwatt2Dbm` | apps/wireless_tools.28/iwlib.c:1151-1175 | The loops end at the least dBm whose power reaches m up to the tolerance. |
| `PowerCodec.ReachedLeast` | apps/wireless_tools.28/iwlib.c:1151-1175 | A dBm value reaches m up to the tolerance if and only if it is not below the result. |
| `PowerCodec.RoundTripIff` | apps/wireless_tools.28/iwlib.c:1125-1175 | From dBm to milliwatts and back never gains, and is exact if and only if d >= 0 and d is none of 1, 2, 3, 6. |
| `PowerCodec.ThereAndBack` | apps/wireless_tools.28/iwlib.c:1125-1175 | The same for the two loops one after the other: exact for every d >= 10. |

## Left out

- Reading /proc and sysfs, ioctl, sockets, netlink, signals, sscanf and printf formats: their results
  are parameters. Only `%1X%1X` and `%02X` are modelled.
- sadf.c and mpstat.c: the same reader and the same two buffers again, with other output.
- Command lines of all programs, ifrename.c, iwevent.c, iw_get_range_info.
- The many output routines of sar: a line is an activity with its two records, and one counter and
  one gauge stand for all of file_stats. check_iface_reg and check_disk_reg, which rewrite the
  reference buffer, are not part of the telescoping result.
- Floating-point rounding: all arithmetic on doubles is exact, and the library versions of the dBm
  conversions, which need irrational powers, are not modelled.
- I/O errors, full disks and processes that die within a record.
- Sadc: a record is appended in one step; SaLock has the single writes, on one file that exists and is
  valid, without -F.
- Sadc.RunSadc: files that are damaged, or whose header sadc could not have written (another structure
  size among them), are not among the files at the start. A block larger than what was sampled is
  filled with zeros, where C leaves what realloc gives.
- Sadc.RunAll: as Sadc.RunSadc.
- Sadc.Collector.OpenOfile: as Sadc.RunSadc.
- Sadc.Collector.Adopt: as Sadc.RunSadc.
- Sadc.Watch: sadc runs to its end before sar reads. That sar's exit, at its count or its end time,
  closes the pipe and so ends a sadc that goes on sending is not modelled: the files are those of a
  sadc that is left to finish.
- SarFile.SarFromFile: the report on a damaged file, which sar prints up to the damage, is not modelled.
- SarPipe.Pipe.ReadHeaderData: a structure size of 0, which is never sent, ends the reading.
- The sizes of the structures are those of a 64-bit machine, and fields are little-endian; the date
  and the three names of a header are one opaque field.
- Slices.Slicer.NextSlice: intervals of 2^31 seconds and more, which C truncates, are not modelled.
- IocTable.Table.IocInit: excludes harmful lines, which write outside the array or leave a null
  pointer that is followed later, both undefined in C; AddIndirect says when that is.
- IocTable.Table.OneLine: as IocTable.Table.IocInit.
- IocTable.NameFromFile: as IocTable.Table.IocInit.
- IocTable.Table.AddIndirect: requires that a record that is followed has a major inside the array.
- IocTable.Table.IocName: writes to a string instead of a fixed buffer; numbers above 2^31, which %d
  prints as negative, are printed as they are.
- IostatSlots.Slots.ReadDiskstats: the layout of slots for kernels before 2.5 is not modelled.
- EventStream.Stream.Extract: the sizes of the event header and of a point are parameters; a payload
  longer than the bytes left in a malformed last event is cut, where C would hand out the pointer.
- EventStream.WellFormed events have values of the size of their type; other sizes are covered by
  Step only.
