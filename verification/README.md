# SCEF container engine: a verified model

SCEF stores files in one encrypted container file. Four metadata slots (a 4096-byte header and an
encrypted file table each) lie at 0, 25, 50 and 75 percent of it, and the data of the stored files
flows around them. Files are encrypted by a pipeline of one reader, several workers and one writer,
joined by bounded queues. When a container is opened, the first slot that authenticates wins.

This project models that engine in Dafny 4.11 and proves what it is for. `dafny verify
dfyconfig.toml` checks all of it.

## Main results

- **Crash atomicity** (`Crash`, `Reopening`). An add may start from any container, whatever earlier
  crashes have left in its slots. Cut off at any byte, with the slot in progress holding any mixture of
  old and new bytes, the container reopens with exactly the old or exactly the new table
  (`Reopening.CrashAtomic`). Old files are intact in every case; new files are too as soon as one slot
  has been synchronised. For a cut in slot 0 this needs a condition on what the slots held before, which
  is exact (`Crash.FirstRecoversIff`), is decided by bytes that are known before the slots are touched
  (`Crash.RejectedIff`), and which completed adds establish (`Reopening.HealthyCurrent`). Every history of
  adds, completed, failed, or cut off and reopened, keeps what has taken effect, and extraction brings it
  back (`Reopening.EveryHistory`, `Reopening.HistoryExtracts`). Creating is an add to an empty container
  once the headers are written (`Creation.CreationIsAdd`).
- **Every schedule is the same** (`Pipeline`, `Runs`, `Threads`). For all interleavings of the threads the
  writer ends as one thread would, and every schedule is finite. Whether the threads finish is decided by
  the input (`Runs.EveryMaximalScheduleEnds`): they do, also after the writer has thrown, unless a read of
  the reader throws first. With the wait sets of both queues and single wake-ups, some thread that is not
  asleep can then always go on (`Threads.NeverAllAsleep`).
- **End to end** (`Sessions.EndToEnd`). Create, add any number of batches, extract: every stored name
  yields its bytes, for all file sizes and all positions of the slots.
- **Success and failure, exactly** (`Outcomes`, `Delivery`). An add succeeds if and only if there is room for
  the files and the table, everything can be read and everything sealed (`Outcomes.AddSucceedsIff`), and so
  does a creation (`Outcomes.CreateSucceedsIff`). Extraction of any entries that lie in the file throws if and only
  if some block does not open to its planned length or a name is refused; otherwise it notes exactly the
  entries with another digest, under every schedule (`Runs.ExtractedIff`, `Runs.EveryExtractOutcome`).
- **The data space** (`Fragments`, `Capacity`). The segment loops refine a byte-at-a-time space
  without slots; the capacity checks are exact.
- **Failed adds** (`Adding`, `Sessions`). On disk they change nothing that is in use. A session that
  is kept afterwards, as the graphical interface does, stays usable exactly when
  `Sessions.SessionUsableIff` says so; one that is opened again is as before, whatever earlier cuts have
  left in the slots (`Reopening.FailedAddKeepsAlive`).
- **Opening** (`Recovery`, `Damage`). At most two key derivations, with the exact condition for an
  intact slot to be accepted. Arbitrary damage to any one slot of a container after a completed add leaves
  data key, table and files as they were, whether or not the damaged slot is accepted
  (`Damage.SlotDamageSurvived`); after earlier cuts the exact condition is `Damage.DamageSurvivedIff`.

Some of these hold under a condition the program does not check. The exact condition is proved each
time, and an input is given on which it fails (in `Instances` where no module is named):

- `skipSlots` makes a single pass and is correct if and only if the slots are separated, which needs up
  to 16 KiB more than the size check on creation asks for (`Layout.SkipSoundIffSize`,
  `Layout.SkipUnsoundExample`). Healthy containers are of such a size.
- Opening never repairs slots, so after a cut they differ until the next completed add. If the next add
  is cut off in slot 0 and that slot comes to be rejected, the container falls back to whatever the first
  of the other slots holds, possibly the table of before the first cut (`RollbackInstance`). Or the new
  header of slot 0 stands over an older table of the same length, and that table comes back, although its
  data space is being reused (`StaleAreaInstance`). The format description says that the four slots are
  kept identical (`docs/container-format.md:209`); the model follows the code.
- The data of new files is not synchronised before slot 0 is written, so a complete slot 0 can list a file
  that does not read back (`LostByteInstance`). The new session is usable if and only if all data bytes of
  the listed files had reached the device (`Reopening.NewTableUsableIff`).
- A read past the end of the file throws in the reader thread of the decrypting pipeline, before it closes
  its queue, so the workers and the writer wait forever. Extraction finishes if and only if no chosen entry
  leads past the end of the file, or the writer throws before that read (`Runs.ExtractFinishesIff`). Opening
  compares no size with that of the file, so a container that was cut short behind slot 0 opens and gets
  there (`TruncatedInstance`).
- The header version is never compared: an older genuine slot 0 is opened although the other slots hold
  newer tables (`Damage.StaleSlotOpens`).
- A container created with a small table area can be smaller than the fixed minimum checked on
  opening; it then never reopens (`Container.Reopens`, `CreatedNeverOpens`).
- The end of data recomputed for a table that carries none ignores the slots
  (`Sessions.RecomputedCoversIff`, `Outcomes.RecomputedReadyIff`, `RecomputedTooLow`).
- Two damaged slots can use up the two key derivations (`Recovery.TwoDamagedExhaust`,
  `TwoDamagedInstance`). So can a torn slot 0 and one damaged slot behind it
  (`CrashThenDamageInstance`).

## How it is laid out

| file | contents |
|---|---|
| `Bytes`, `Layout`, `Fragments`, `Capacity` | slot arithmetic, the data space, space checks |
| `Monitor`, `Pipeline`, `Threads`, `Runs` | the bounded queue with its wait sets, the pipeline as a step system, the two together, whole runs |
| `Chunks`, `Names`, `FileTable`, `Sealing` | block arithmetic, entry names, the table, stored blocks |
| `Encrypt`, `Storing`, `Decrypt`, `Delivery` | reader, worker and writer of both pipelines, and what their writers achieve |
| `Header`, `Recovery`, `Slots` | the header codec of both implementations, opening, the slot writes |
| `Container`, `Adding`, `Sessions`, `Outcomes`, `Manager` | the container as a whole: saving, adding, histories, exact success conditions, the `FileManager` object |
| `Torn`, `Crash`, `Reopening`, `Creation`, `Damage` | torn slots, power loss during an update, the sessions after it, the same for a new container, damaged slots |
| `TextForm`, `Consistency`, `Instances` | a context that meets the assumptions, and concrete containers in it |
| `BufferedReader` | the browser's read-ahead reader and chunk loop |

Objects the program updates in place are classes here (`NativeFile`, `FileTable`, `Header`,
`BoundedQueue`, `EncryptWriter`, `DecryptWriter`, `Reader`, `FileManager`); each method is proved
against a function of the old state, and the theorems are about these functions. The threads are a
state machine whose steps are the critical sections and callbacks of the source. Automatic induction
is off in every lemma, so each induction is written out.

## What is assumed

- Encryption is ideal: a sealed block is 28 bytes longer and opens to what was sealed (`Crypto.Ideal`).
  Nonces are parameters. Key derivation and message codes are arbitrary deterministic functions. The
  text form of a table parses back to the table and is not empty (`Context.Ideal`).
- For crashes: of all byte-wise mixtures of the header a slot held and the new one only the whole ones
  carry a valid code, and what opens at the start of a mixture of the two table areas is the new table or
  stood there before (`Torn.TornRejected`). For `Reopening.NewTableUsableIff`: no other string at the
  place of a sealed block opens to the same block (`Reopening.NoSubstitute`).
- For damage to slot 0: a header that verifies under the key of its own parameters starts with the 192
  bytes that were written, and a string in the place of the table that opens is the one that was written
  (`Damage.NotForged`). Damage to the other slots of a container after a completed add needs no assumption;
  after earlier cuts the same is assumed of the damaged slot (`Damage.NotForgedFrom`), and that intact slots
  are rejected under a key derived from other parameters (`Damage.KeyRejected`).
- All of these are met together: `Instances.SomeAddUnderway` gives a context and a container with one file
  to which another is being added.
- The device keeps what was synchronised. Of what was written later, any subset of the bytes may
  survive.
- Input files do not change during a run, and paths that can be opened end in a proper file name
  (`Sessions.FilePaths`).

## Model

| member | source | states |
|---|---|---|
| `Layout.ComputeSlotOffsets` | include/FileManager.h:34-47 | the filled array holds the 64-bit slot formula for 0, 25, 50 and 75 percent, wrap-around included |
| `Layout.OffsetsExact` | include/FileManager.h:34-37 | up to the maximal container size no product wraps: the offsets are exactly the quarters rounded down to 4096 |
| `Layout.CreationCheckGives` | src/FileManager.cpp:372-387 | the size check on creation keeps the four offsets aligned, strictly increasing and every slot inside the file |
| `Layout.SkipSlots` | src/FileManager.cpp:128-136 | the loop returns the end of the first listed slot holding the position, or the position |
| `Layout.BytesUntilNextSlot` | src/FileManager.cpp:138-146 | for increasing offsets the cut never crosses a slot start, is positive, and is made only at a slot start |
| `Layout.SkipIsLeast` | src/FileManager.cpp:128-136 | with separated slots the result is the least position at or after the argument outside every slot |
| `Layout.SkipSoundIffSeparated` | src/FileManager.cpp:128-136 | the single pass never lands in a slot if and only if at least one byte lies between any two slots |
| `Layout.SkipSoundIffSize` | src/FileManager.cpp:372-387 | for an accepted container that is so if and only if its size is at least 16384 * (reserved / 4096 + 1) |
| `Layout.SkipUnsoundExample` | src/FileManager.cpp:377-383 | a container of 286720 bytes passes the creation check, yet skipping out of slot 2 lands on the header of slot 3 |
| `Layout.SlotGaps` | src/FileManager.cpp:372-387 | from that size on the slots are separated and end before the file does, by a whole 4096-byte block when the reservation is aligned |
| `Layout.BrowserAgrees` | browser/src/header.js:71-85 | the browser's exact arithmetic gives the C++ offsets for every size the program creates |
| `Fragments.NativeFile.WriteFragmented` | src/FileManager.cpp:148-173 | the segment loop ends for every layout; with separated slots it stores exactly what writing byte after byte into the data space stores and returns the same end offset |
| `Fragments.NativeFile.ReadFragmented` | src/FileManager.cpp:175-185 | the segment loop ends for every layout; with separated slots it returns the bytes and end offset of the byte-wise read, and fails exactly when that read leaves the file |
| `Fragments.SegmentsArePut` | src/FileManager.cpp:148-173 | cutting the data at slot starts and skipping between the pieces stores every byte where the byte-wise form puts it |
| `Fragments.CollectedIsGet` | src/FileManager.cpp:175-185 | the same for reading, failures included |
| `Fragments.PutAt` | src/FileManager.cpp:148-173 | after a write a data byte of the written range holds the datum of its rank among data bytes; every other byte keeps its value |
| `Fragments.PutFrame` | src/FileManager.cpp:148-173 | a write changes no slot byte and no byte outside its range, and does not lengthen a file it fits into |
| `Fragments.GetPut` | src/FileManager.cpp:148-185 | reading from the offset of a write returns the written bytes |
| `Fragments.PutCompose` | src/FileManager.cpp:148-173 | writing a and then b where a ended is writing a + b |
| `Fragments.GetCompose` | src/FileManager.cpp:175-185 | reading m + n bytes is reading m and then n where the first read ended |
| `Fragments.EndCounts` | src/FileManager.cpp:148-173 | the range a write of n bytes covers holds exactly n data bytes, the last one at its end |
| `Fragments.FitsIffCount` | src/FileManager.cpp:148-173 | a write ends below a limit if and only if that many data bytes lie between its offset and the limit |
| `Fragments.GetSomeIff` | src/FileManager.cpp:175-185 | a read succeeds if and only if it ends inside the file |
| `Monitor.BoundedQueue.Push` | include/BoundedQueue.h:14-21 | a push fails if and only if the queue is closed, waits if and only if it is open and full, and otherwise, and only then, the item is at its end; each call is a step of the monitor that wakes the consumer it must |
| `Monitor.BoundedQueue.Pop` | include/BoundedQueue.h:23-31 | a pop yields the head exactly if there is one, closed or not, waits if and only if the queue is open and empty, and ends without an item if and only if it is closed and empty |
| `Monitor.BoundedQueue.Close` | include/BoundedQueue.h:33-38 | closing wakes every waiting thread and keeps what is queued |
| `Monitor.CallsDecided` | include/BoundedQueue.h:14-31 | in every state exactly one of the three outcomes of push, and of pop, is possible for a thread that may call it, and closed, queue length and capacity say which |
| `Monitor.Fifo` | include/BoundedQueue.h:14-31 | in every run what was pushed is what was popped followed by what is inside, in order, and the capacity is never exceeded |
| `Monitor.NoLostWakeup` | include/BoundedQueue.h:14-38 | in every run a thread that waits although it could go on is accompanied by a woken thread of its kind whose call can complete |
| `Threads.RunsAreSchedules` | src/EncryptPipeline.cpp:31-80 | every run of the threads with the wait sets of both queues, single wake-ups and spurious ones included, is a schedule of the pipeline once sleeping and waking are left out, and keeps the invariants of pipeline and monitors; a thread waits only on the queue of its next step |
| `Threads.NeverAllAsleep` | include/BoundedQueue.h:14-38 | in every state such a run reaches, as long as some thread is unfinished and the reader has not been ended by a read that threw, a thread that is not asleep can take its next step |
| `Threads.EveryThreadedRun` | src/EncryptPipeline.cpp:31-80 | such a run has no more pipeline steps than the measure of its start, and when all threads have finished the writer has what one thread would have |
| `Pipeline.StepInv` | src/EncryptPipeline.cpp:82-260 | every step of reader, workers and writer, the reader's exception included, keeps the invariant: each sequence number is in exactly one place with its own result, the queues respect their capacities, the counter counts the active workers |
| `Pipeline.ClosedEndsFile` | src/EncryptPipeline.cpp:126-158 | a reader that finds its queue closed reads nothing more of that file and goes on behind its last block; as long as the queue is open the next block is the next one it reads |
| `Pipeline.ScheduleIndependence` | src/EncryptPipeline.cpp:57-79 | for every schedule the writer ends with what one thread handling the results in order has, and throws exactly when that thread does; nothing is left in a queue or in the reorder buffer |
| `Pipeline.DeadlockFree` | src/EncryptPipeline.cpp:57-79 | if no read throws, or the writer throws at an earlier chunk, a reachable state has an enabled step if and only if some thread is unfinished, also after the writer closed both queues |
| `Pipeline.StuckIff` | src/DecryptPipeline.cpp:69-123 | in general a reachable state has no enabled step if and only if all threads are done, or the reader was ended by a read that threw and all others wait at empty open queues |
| `Pipeline.EndsByInput` | src/DecryptPipeline.cpp:69-123 | which of the two it is, the input decides, not the schedule: threads that are all done imply that no read throws or the writer throws at an earlier chunk; the waiting state implies the opposite, and that the writer has what one thread has up to that read |
| `Pipeline.SchedulesEnd` | src/EncryptPipeline.cpp:57-79 | a measure of the state bounds the length of every schedule from it |
| `Pipeline.CanFinish` | src/DecryptPipeline.cpp:45-66 | from every reachable state some schedule leads to a state in which all threads are done, or, if a read throws before the writer does, all others wait |
| `Pipeline.NothingLost` | src/EncryptPipeline.cpp:239-257 | when the writer finds the closed queue empty, whatever the other threads still have to do, everything has been read and every sequence number handled; both queues and the reorder buffer are empty and no worker holds a chunk |
| `Runs.EveryMaximalScheduleEnds` | src/DecryptPipeline.cpp:31-123 | every schedule that cannot be continued has finished all threads if and only if no read throws or the writer throws at an earlier chunk; otherwise in every such schedule the workers and the writer wait forever, with what one thread has up to that read |
| `Runs.EveryMaximalSchedule` | src/EncryptPipeline.cpp:31-80 | under that condition a schedule that cannot be continued has finished all threads, is bounded in length, and leaves the writer as one thread would |
| `Runs.SchedulesAgree` | src/EncryptPipeline.cpp:31-80 | two runs on the same input produce the same container bytes and entries, and both finish, both throw or both wait forever |
| `Runs.EveryEncryptRun` | src/EncryptPipeline.cpp:31-80 | under every schedule exactly a prefix of the files is stored, all of them if and only if the writer does not throw; everything stored before is intact |
| `Runs.EveryExtractRun` | src/DecryptPipeline.cpp:31-67 | under every schedule over intact entries each file comes back with its content, no other output file changes, and no checksum failure is recorded |
| `Runs.ExtractFinishesIff` | src/DecryptPipeline.cpp:69-123 | the decrypting threads finish, under every schedule, if and only if no chosen entry leads past the end of the file, which can be checked before the run, or the writer throws before that read; otherwise under every schedule the workers and the writer wait forever |
| `Runs.EncryptInOrder` | src/EncryptPipeline.cpp:196-260 | for every layout the chunks of all files, sealed and handed to the writer one by one, leave the outcome every schedule has |
| `Runs.WriterLoop` | src/EncryptPipeline.cpp:239-259 | for every order in which the results arrive, the loop with its reorder buffer handles them in the order of their numbers, each once, up to the first that throws |
| `Runs.ExtractInOrder` | src/DecryptPipeline.cpp:69-251 | the same for reading, opening and writing out, up to the first read past the end of the file, at which the reader throws |
| `Runs.SoFarIsEverySchedule` | src/DecryptPipeline.cpp:31-123 | what one thread writes up to the first read that throws is what every schedule ends with, whether it finishes or not, and everything if no read throws |
| `Runs.ExtractedIff` | src/DecryptPipeline.cpp:125-251 | extraction of any entries whose blocks lie in the file: with usable names it throws if and only if some block does not open to its planned length; otherwise every output holds the joined opened blocks of its entry, no other file changes, and the failures are exactly the digests that differ |
| `Runs.EveryExtractOutcome` | src/DecryptPipeline.cpp:31-251 | the same under every schedule of the threads, which all finish |
| `Chunks.AccountingAgrees` | src/FileManager.cpp:340-350 | the predicted encrypted size is the space the sealed blocks take, and the recorded chunk count is the number of blocks |
| `Chunks.CountIsCeiling` | src/FileTable.cpp:56-58 | the recorded chunk count is the least number of blocks that hold the file |
| `Chunks.BlockAt` | src/DecryptPipeline.cpp:91-117 | block i starts at i full blocks and has the length the decrypting reader computes from what remains |
| `Chunks.JoinSplit` | src/EncryptPipeline.cpp:126-158 | the blocks joined in order are the file |
| `Names.ResolveName` | src/FileTable.cpp:28-50 | the search ends and yields the own file name if free, else the least free number from 2 on |
| `Names.CandidateInjective` | src/FileTable.cpp:43-48 | different numbers give different candidate names, whatever digits stem and extension hold |
| `Names.FileNameIff` | src/FileTable.cpp:37 | the file part of a path is what follows its last slash, or the whole of a path without one |
| `Names.PartsIff` | src/FileTable.cpp:38-40 | a name is cut at its last dot if and only if something stands in front of that dot, the name .. excepted |
| `Names.DecimalReads` | src/FileTable.cpp:44 | the number in a candidate reads back in base ten and has no leading zero |
| `Names.CandidateKeepsExtension` | src/FileTable.cpp:43-48 | the number stands between stem and extension: a candidate has the extension of the name if and only if the name is not .. |
| `Names.SecondReport` | src/FileTable.cpp:42-50 | the second report.txt, from whatever folder, becomes report (2).txt |
| `Tables.TriesWithinTable` | src/FileTable.cpp:42-50 | the number the search ends with is at most the table size plus 2: at most one try more than there are entries |
| `Tables.AppendKeepsDistinct` | src/FileTable.cpp:23-69 | adding an entry for any path keeps all names distinct |
| `Names.ResolvedIsFileName` | src/DecryptPipeline.cpp:175-181 | a stored name is its own file part, so extraction writes it under exactly that name |
| `Tables.FileTable.AddFileEntry` | src/FileTable.cpp:23-69 | the table grows by one entry with resolved name, size, offset, chunk count and checksum; names stay distinct |
| `Tables.Find` | src/FileTable.cpp:141-148 | lookup succeeds if and only if the name is stored and yields the first entry of that name, with distinct names the only one |
| `Tables.FileTable.GetFileInfoByName` | src/FileTable.cpp:141-148 | the search loop is that lookup |
| `Tables.FileTable.Load` | src/FileTable.cpp:87-121 | loading replaces entries and end of data; a stored end is kept, and a missing one becomes the greatest of offset + 65564 * chunks over the entries |
| `Tables.LoadedEnd` | src/FileTable.cpp:106-119 | the end of data after a load is the stored one, or, if that is missing in a table with entries, at or above every offset + 65564 * chunks and equal to one of them |
| `Sessions.RecomputedCoversIff` | src/FileTable.cpp:106-119 | the recomputed end of data covers an entry if and only if the slot bytes its extent runs across fit into the slack of its last block |
| `Outcomes.RecomputedReadyIff` | src/FileTable.cpp:106-119 | a session with a recomputed end is usable if and only if names and extents are in order, no offset + 65564 * chunks lies outside the container, and every extent ends at or below the place where the writer of the next add starts |
| `Outcomes.OpensWithoutEnd` | src/FileManager.cpp:457-574 | opening a container whose slot 0 verifies and holds a table with entries and no end of data yields these entries with the greatest of their ends |
| `Encrypt.ReaderTask` | src/EncryptPipeline.cpp:82-162 | the loop over files and blocks emits exactly the planned chunks and sentinels, up to the first file that cannot be opened |
| `Encrypt.ReadFile` | src/EncryptPipeline.cpp:126-158 | the block loop of one file: every block once, in order, the last one marked and carrying digest and size |
| `Encrypt.EncryptWriter.ProcessChunk` | src/EncryptPipeline.cpp:210-237 | one chunk changes file, offsets, table and count as the writer function says; a failed chunk changes nothing |
| `Storing.FoldFile` | src/EncryptPipeline.cpp:196-260 | after i blocks of a file they are readable in order from its start, only free data bytes were used, and the table is unchanged until the last one |
| `Storing.StoreFile` | src/EncryptPipeline.cpp:196-260 | a file of any size becomes one intact entry, or leaves table and stored data as they were |
| `Storing.StorePlan` | src/EncryptPipeline.cpp:82-260 | the writer over any list of files stores a prefix of it, all of it if and only if it does not throw, each file intact, in disjoint extents above the old end of data |
| `Storing.AllIntactKept` | src/EncryptPipeline.cpp:206-259 | writing above every extent leaves every stored file readable |
| `Decrypt.ReadEntry` | src/DecryptPipeline.cpp:91-120 | the block loop of one entry emits the planned reads in order up to the first that leaves the file, where it throws; it throws if and only if some read does |
| `Decrypt.DecryptWriter.ProcessChunk` | src/DecryptPipeline.cpp:183-225 | one chunk changes the output files, the open file and the failures as the writer function says, exceptions included; what that comes to is Delivery.FoldEntryIff |
| `Delivery.ReadableIff` | src/DecryptPipeline.cpp:91-117 | the reads of an entry stay in the file if and only if each of its blocks does, block i starting where the one before ends with its planned bytes and 28 more |
| `Delivery.FoldEntryIff` | src/DecryptPipeline.cpp:125-231 | for any entry whose blocks lie in the file, intact or not: the writer throws if and only if the name is refused or some block does not authenticate or opens to another length than planned; otherwise the output is what the blocks open to, joined, and the name is noted if and only if its digest is not the recorded one |
| `Delivery.FoldAllIff` | src/DecryptPipeline.cpp:157-251 | the same for any list of such entries: it throws if and only if some entry does, and otherwise the names noted are, in order, exactly those of the entries with another digest |
| `Delivery.FoldExtract` | src/DecryptPipeline.cpp:157-251 | extracting intact entries writes each content under its name and records no failure |
| `Delivery.FilesAfterHas` | src/DecryptPipeline.cpp:188-199 | each name ends up with the content listed for it; other files are untouched |
| `Capacity.FreeCapacity` | src/FileManager.cpp:648-667 | the 64-bit free capacity, or the error of a full container; when slots do not overlap it is exactly the number of data bytes left and no subtraction goes below zero |
| `Capacity.AvailableExact` | src/FileManager.cpp:323-336 | the capacity reported on creation is exactly the number of data bytes behind the first slot |
| `Capacity.ComputeRequired` | src/FileManager.cpp:338-368 | the sum of the predicted sizes, or the error when a size cannot be queried |
| `Capacity.FitsIffRequired` | src/FileManager.cpp:624-636 | storing the files one after the other ends inside the container if and only if the required size does not exceed the free data bytes, and uses exactly the required bytes |
| `HeaderCodec.RoundTrip` | src/Header.cpp:74-285 | reading a serialized header of version 1.1 recovers every field, for every cipher and every supported hash |
| `HeaderCodec.LittleEndian` | include/Header.h:169-189 | a stored number has its least significant byte first |
| `HeaderCodec.ParsesIff` | src/Header.cpp:74-153 | 4096 bytes are accepted as a header if and only if bytes 4 to 7 are 1, 0, 1, 0 and byte 0x98 is 1, 2 or 3 |
| `HeaderCodec.ReserializeIff` | src/Header.cpp:74-285 | serializing what was read gives back the same 4096 bytes if and only if the magic is right and the padding is zero |
| `HeaderCodec.StoreHmacKeepsProtected` | src/Header.cpp:168-177 | storing a code changes its 32 bytes only, so the 160 protected bytes are those it was computed over |
| `HeaderCodec.BrowserSeesFields` | browser/src/header.js:91-142 | the browser parses every serialized header and gets the values that were written, the container size as rounded to a JavaScript number and exactly up to the maximal size |
| `HeaderCodec.RoundedExactIff` | browser/src/header.js:119 | a size survives the conversion to a JavaScript number if and only if it is a multiple of the spacing of numbers around it; every size below 2^53 does |
| `HeaderCodec.Header.CreateBuffer` | src/Header.cpp:195-285 | the buffer becomes the serialized header, or stays as it was when cipher or hash is unsupported |
| `HeaderCodec.Header.StoreHmac` | src/Header.cpp:168-171 | field and buffer both carry the code and stay in agreement |
| `HeaderCodec.Header.Read` | src/Header.cpp:74-153 | reading succeeds if and only if bytes 4 to 7 give version 1.1 and byte 0x98 a known hash, and then every field has its parsed value |
| `HeaderCodec.ReadLe` | include/Header.h:169-179 | the accumulating loop yields the little-endian value |
| `HeaderCodec.Header.WriteLe64` | src/Header.cpp:366-375 | exactly the eight bytes at the position become the little-endian value |
| `Recovery.ReadMeta` | src/FileManager.cpp:457-574 | the loop over the slots accepts what the scan accepts and derives at most two keys |
| `Recovery.HeaderReadIff` | src/FileManager.cpp:467-484 | a slot has a header if and only if 4096 bytes are there that start with 53 43 45 46 01 00 01 00 and name one of three hashes |
| `Recovery.AuthenticatesIff` | src/FileManager.cpp:536-551 | a slot is accepted under a key if and only if the code over its first 160 bytes is the recorded one, a data key of 32 bytes opens, and there is no table or one of more than 28 bytes in the file that opens and parses; what it yields is that data key and that table |
| `Recovery.OpenedSound` | src/FileManager.cpp:457-574 | over any bytes, what opening returns was accepted in one of the four slots under a key derived from parameters in range named by that slot or an earlier one, and its header gives the container at least 278528 bytes |
| `Recovery.BudgetKept` | src/FileManager.cpp:489-536 | over any bytes no scan derives more than two keys, and the key at hand always belongs to the remembered parameters |
| `Recovery.GenuineAcceptedIff` | src/FileManager.cpp:498-551 | an intact slot the scan reaches is accepted if and only if that condition holds |
| `Recovery.AnySingleDamage` | src/FileManager.cpp:498-551 | if all slots but one are intact, the scan ends at an intact slot with what was stored, or at the damaged one if that authenticates |
| `Recovery.TwoDamagedExhaust` | src/FileManager.cpp:489-551 | two damaged slots in front with different usable parameters exhaust the budget, and the two intact slots behind are not recognised |
| `Slots.WriteFileTableAt` | src/FileManager.cpp:399-416 | the table area becomes the encrypted table followed by zeros, in at most two writes |
| `Slots.WriteSlots` | src/FileManager.cpp:448-452 | the slot loop; at each of its synchronisations the file holds the new contents in exactly the slots done so far |
| `Slots.ReplicaIdentity` | src/FileManager.cpp:427-453 | the slots written so far are byte-identical, the other slots and every data byte are as before |
| `Container.Saves` | src/FileManager.cpp:427-453 | after a completed update all four slots hold the same sealed table under a matching code, and no data byte has changed |
| `Outcomes.SavesIff` | src/FileManager.cpp:427-453 | an update succeeds if and only if the text of the table has at most the table area less 28 bytes and can be sealed |
| `Outcomes.FailedSaveLeaves` | src/FileManager.cpp:427-453 | a failed update has changed nothing but the table size in the header in memory |
| `Container.SlotGenuine` | src/FileManager.cpp:498-551 | a slot written by an update authenticates and yields header, data key and table, wherever it lies |
| `Container.Reopens` | src/FileManager.cpp:457-574 | a healthy container reopens with exactly the header, key and table of the session if its size is at least the fixed minimum, and does not reopen otherwise |
| `Adding.FitsWhenAccepted` | src/FileManager.cpp:644-676 | the writer, starting behind a slot if need be, stays inside the container if and only if the capacity check passes |
| `Adding.RunOutcome` | src/FileManager.cpp:678-679 | a run that was let through never ends outside the container and never lengthens the file, whether or not it throws |
| `Adding.AddKeepsHealthy` | src/FileManager.cpp:644-685 | a successful add, from any session whose listed files are intact and whatever the slots hold, leaves a healthy container that lists the old files followed by the new ones, and changes no data byte below the old end of data |
| `Outcomes.AddSucceedsIff` | src/FileManager.cpp:644-685 | an add succeeds if and only if the container is not full, all files can be found and opened, they take at most the data bytes that are left, every block can be sealed, and the table fits its area with 28 bytes to spare and can be sealed |
| `Outcomes.AddLeaves` | src/FileManager.cpp:644-685 | after it the header is the old one with the new file count, table size and next version, each modulo 2^32, and the code over its first 160 bytes |
| `Adding.FailedAddHarmless` | src/FileManager.cpp:644-685 | every failure of an add leaves all slot bytes, all bytes below the end of data and the file length as they were; the table in memory lists a prefix of the new files |
| `Adding.FailedAddKeepsContainer` | src/FileManager.cpp:644-685 | after a failed add the file is the healthy container it was before, so it reopens with the old table and files |
| `Sessions.SessionUsableIff` | gui/ScefController.cpp:266-287 | a session that is kept after a failed add can go on if and only if all files had been written or every file its table retained is empty |
| `Sessions.NextAddOrderedIff` | gui/ScefController.cpp:266-287 | the next successful add in that session leaves the extents of all listed files disjoint and in order if and only if the same condition holds |
| `Storing.EntryPlace` | src/EncryptPipeline.cpp:206-259 | old entries are unchanged; new entry i starts where the first i files end, moved past a slot, with its size and checksum |
| `Sessions.ScheduledIsOneThread` | src/FileManager.cpp:709-732 | whatever the schedule, the pipeline run of an add ends as the one-thread run |
| `Sessions.AddsKeepHealthy` | src/FileManager.cpp:644-685 | every history of successful adds under any schedules keeps the container healthy, with one intact entry per file and all earlier entries unchanged |
| `Sessions.CreateHealthy` | src/FileManager.cpp:612-642 | a successful creation in a size that separates the slots yields a healthy container with exactly the given files |
| `Outcomes.CreateSucceedsIff` | src/FileManager.cpp:612-642 | a creation succeeds if and only if there is something to store, the size lies between 4 * (4096 + table area) and 2^41, all files can be found and opened, they take at most the size less that, and blocks and table can be sealed and the table fits |
| `Outcomes.CreatedTable` | src/FileManager.cpp:612-642 | in a size that separates the slots that room is the data bytes behind slot 0, and the table that must fit lists exactly the files |
| `Outcomes.CreatedFree` | src/FileManager.cpp:372-399 | the rest of the data space of a new container is zero |
| `Sessions.EndToEnd` | src/FileManager.cpp:576-685 | create, any number of adds, extract: under any schedules every stored name comes back with the bytes of its file and no checksum fails |
| `Torn.TornHeader` | src/FileManager.cpp:427-453 | a header that is any byte-wise mixture of two headers of one container still is a header of that container, and if it verifies it is one of the two |
| `Torn.TornYield` | src/FileManager.cpp:427-453 | a slot holding any mixture of what it held and the new version yields nothing, the table it yielded before, the new table, or what stood at the start of its table area before |
| `Crash.OpeningIsFirst` | src/FileManager.cpp:489-551 | on a container whose slots all have its headers, opening accepts the first slot that yields anything under its own key |
| `Crash.FirstRecoversIff` | src/FileManager.cpp:427-551 | every cut in slot 0 leaves a container that reopens with the session's or the new table if and only if slot 0's table area opens to nothing else at the new length and, if the bytes of slot 0 and of the new image admit a rejected mixture, the first other slot that yields anything holds one of the two |
| `Crash.RejectedIff` | src/FileManager.cpp:427-453 | some mixture of the old and the new slot 0 is rejected if and only if the first 192 bytes of the two headers differ in two places, or one of the headers over one of the two table areas is rejected, or the areas differ in two places where one of the headers announces its table |
| `Crash.TwoDifferencesReject` | src/FileManager.cpp:427-453 | some mixture is rejected as soon as the first 192 bytes of slot 0 differ from the new ones in two places |
| `Reopening.CrashAtomic` | src/FileManager.cpp:427-551 | cut off anywhere in the update of any opened container, it reopens with exactly the old or exactly the new table (in slot 0 under the exact condition, which can be evaluated before the update), the new one once a slot is complete; old files are always intact, all listed files once a slot is complete |
| `Reopening.UnderwaySaves` | src/FileManager.cpp:644-685 | whatever the writer of an add leaves in a session as opening finds it, and the version then written, meet what the results on cuts assume of the two states between which the slots are rewritten |
| `Reopening.ReopenedAlive` | src/FileManager.cpp:90-117 | reopening after any cut gives a session again: with the old table and all old files, with the new table and all files once slot 0 was synchronised, and otherwise with the new table exactly if the new files are intact |
| `Reopening.NewTableUsableIff` | src/FileManager.cpp:678-680 | if the new table is found before the first synchronisation, the session is usable if and only if all data bytes of the listed files had reached the device |
| `Reopening.PowerLossExample` | src/FileManager.cpp:678-680 | since nothing synchronises the data before slot 0 is written, power loss can leave a complete slot 0 whose new file does not read back |
| `Reopening.HealthyCurrent` | src/FileManager.cpp:427-453 | a container left by a completed add meets the condition for cuts in slot 0 |
| `Reopening.FailedAddKeepsAlive` | src/FileManager.cpp:644-685 | an add that fails for whatever reason in any session, also one on slots that cuts have left different, changes nothing that opening finds: the file reopens with the same header and table, and every stored file is intact |
| `Reopening.EveryHistory` | src/FileManager.cpp:644-685 | in every history of adds, each completed, failed, or cut off under these conditions, with reopening after a failure or a cut, every reopening succeeds and the files of all adds that took effect are listed and intact at the end |
| `Reopening.HistoryExtracts` | src/FileManager.cpp:576-685 | after any such history extraction brings every stored file back with its bytes under every schedule, and no checksum fails |
| `Creation.CreationIsAdd` | src/FileManager.cpp:612-642 | a successful creation is, once its headers have been written, a successful add to a container that opens with no files, so all results on cuts hold of it |
| `Reopening.RollbackExample` | src/FileManager.cpp:498-551 | after a cut behind slot 0 and a second cut in slot 0 that leaves it rejected, opening finds the table of before the first cut, which is neither the session's nor the new one |
| `Damage.SlotDamageSurvived` | src/FileManager.cpp:457-574 | arbitrary damage to any one slot of a healthy container: it reopens with the same data key and table and the same header but for two fields no operation uses (they are only printed), and every file is intact |
| `Damage.DamagedOpening` | src/FileManager.cpp:489-551 | damage to one slot of any container, also one whose slots cuts have left different: opening finds what the first slot yields that yields anything under its own key, except that the slots behind a damaged one which is not the first and states usable parameters of its own are not recognised; every stored file is intact |
| `Damage.DamageSurvivedIff` | src/FileManager.cpp:489-551 | the container keeps its table if and only if a slot in front of the damaged one is accepted, or the damaged one still is, or the slots behind are recognised and the first of them that yields anything holds that table |
| `Damage.StaleSlotOpens` | src/FileManager.cpp:489-551 | any other genuine version in slot 0 is opened, whatever newer versions the other slots hold |
| `Instances.SomeAddUnderway` | src/FileManager.cpp:644-685 | some context and container meet all assumptions of the crash theorems and the condition for slot 0 |
| `Instances.LostByteInstance` | src/FileManager.cpp:678-680 | one byte of the new file is lost: the container reopens with the new table, and the file does not read back |
| `Instances.TwoDamagedInstance` | src/FileManager.cpp:489-551 | two changed headers in front of two intact slots: the container opened before and does not open now |
| `Instances.RollbackInstance` | src/FileManager.cpp:427-551 | two cuts after each other lead from one file to two and back to one |
| `Instances.StaleAreaInstance` | src/FileManager.cpp:427-551 | a third cut, between header and table of slot 0, brings back the table that had been lost, although its data space is being reused |
| `Instances.CrashThenDamageInstance` | src/FileManager.cpp:489-551 | a container with a torn slot 0 and three intact slots opens; after damage to slot 1 alone it no longer does, with slots 2 and 3 intact |
| `Instances.TruncatedInstance` | src/NativeFile.cpp:318-337 | a container cut short eight bytes behind slot 0 opens with its table, and under every schedule its extraction never ends: the read throws in the reader, and workers and writer wait |
| `Instances.CreatedNeverOpens` | src/FileManager.cpp:564-570 | a container of 65536 bytes with a table area of 4096 is created successfully and never opens |
| `Instances.RecomputedTooLow` | src/FileTable.cpp:106-119 | a file of one byte that starts four bytes before the second slot ends beyond the recomputed end of data |
| `BufferedReader.Reader.EnsureLoaded` | browser/src/download.js:60-77 | whatever is cached, loading fails if and only if a needed byte lies past the end of the file |
| `BufferedReader.Reader.ReadFragmentedBuffered` | browser/src/download.js:88-105 | for any earlier calls the cached read is the plain fragmented read: same bytes, same end position, same failures |
| `BufferedReader.DecryptFileToMemory` | browser/src/download.js:114-160 | the chunk loop returns data if and only if every block lies in the file and authenticates and what the blocks open to, joined, has the recorded checksum, and that is what it returns; for an intact entry it is the stored content |
| `Manager.FileManager.ComputeAndStoreHeaderHmac` | src/FileManager.cpp:299-308 | field and buffer carry the code of the protected bytes |
| `Manager.FileManager.WriteFileTableToAllSlots` | src/FileManager.cpp:427-453 | it throws if and only if the text of the table and 28 bytes exceed the table area or sealing fails, and then the file is unchanged; otherwise it has the effect the theorems are about and passes through the states a crash can interrupt |
| `Manager.FileManager.Add` | src/FileManager.cpp:644-685 | checks, run, new end of data and slot update change file, header and table as the add of the theorems does, exceptions included, for every container size; when it succeeds is Outcomes.AddSucceedsIff |
| `Manager.FileManager.Write` | src/FileManager.cpp:612-642 | creation leaves file, header and table as the function of the old session says, from any table, on success and after each exception; when it succeeds is Outcomes.CreateSucceedsIff, what a refusal leaves Manager.RefusedCreation |
| `Manager.RefusedCreation` | src/FileManager.cpp:612-642 | an empty list or a size out of bounds leaves the file alone; a missing file or too little room is found when the new file, all zeros, is already there |
| `Manager.CreatingIsCreate` | src/FileManager.cpp:612-642 | from an empty table this is the creation the theorems are about: it succeeds in the same cases, with the same result |
| `Manager.FileManager.Extract` | src/FileManager.cpp:576-610 | an unknown name throws before anything is written; the reader throws if and only if a read of the chosen entries leaves the file; otherwise the call throws if and only if a block does not open to its planned length or a name is refused, and else files and failures are those of the opened blocks |
| `Manager.NamedExtract` | src/FileManager.cpp:576-610 | from a healthy container extraction by name fails if and only if a name is not stored; otherwise every requested file is written with its content, no checksum fails and other output files do not change |

## Left out

- Botan, WebCrypto and hash-wasm: replaced by the ideal functions above; key scrubbing and random generators are not modelled.
- JSON syntax: a table and its text are related by an abstract parser; a text that parses only in part, and then leaves a partly filled table behind, is not modelled.
- System calls: a file is a byte sequence written and read at positions; short transfers, permission errors and full disks do not occur, and synchronisation matters only in the crash model.
- Exceptions of the reader threads: a read past the end of the file ends the reader of the decrypting pipeline without closing its queue. What becomes of the exception in the thread pool task, possibly the end of the process, is not modelled: BS::thread_pool is not part of this model. Nor is a failing read of an input file that could be opened.
- An unavailable hash algorithm in the pipelines: it is answered like a file that cannot be opened, and adds nothing.
- Cancellation: the flag is always false in both calls (`src/FileManager.cpp:594`, `src/FileManager.cpp:716`).
- Threads as such: a schedule is a sequence of atomic steps, so memory ordering and the mutex are not modelled; a critical section of a queue is one step.
- Runs.WriterLoop: written for the encrypting writer; the loop of the decrypting one is the same code around another chunk handler, and workers and the decrypting loop are covered by the step system.
- Manager.FileManager.Add: the pipeline inside it runs in one thread; that every schedule has the same outcome is `Sessions.ScheduledIsOneThread`.
- Power loss while the headers of a new container are being written for the first time: what opening then finds is not stated. From there on creation is covered (`Creation.CreationIsAdd`).
- Encrypt.EncryptWriter.ProcessChunk: the file count is kept as a number and reduced modulo 2^32 when it reaches the header.
- Fragments.NativeFile.WriteFragmented: offsets are unbounded integers; for containers up to the maximal size no 64-bit offset wraps.
- BufferedReader.Reader.ReadFragmentedBuffered: positions are exact integers; above 2^53 bytes JavaScript numbers are not (`HeaderCodec.RoundedExactIff`), and containers end at 2^41.
- Names.ResolveName: POSIX path rules; drive letters and backslashes are not modelled.
- The documentation says that duplicate names get a "(copy)" prefix (`docs/container-format.md:172`, `docs/api/scef-lib.md:340`); the code appends a number, and the model follows the code.
- The command line, the graphical interface beyond the kept session, progress reports, logging, statistics, KDF profiles, password strength, container naming and the ZIP download: no effect on the container, or only easy claims.
