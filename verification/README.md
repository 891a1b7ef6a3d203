# Model of a graph database's searches, log and encodings, and of its release tools

The repository holds a graph database and the tools it is released with. This
project models the parts of it that are algorithms of their own, and proves what
each is for. What the original does with loops or with state is a method with the
same loops and state, proved against a function that says what is meant; the
theorems are about those functions. Expressions stay functions: the choice of a
scalar's reader (`Encoding.ReadPayload`), the text of a date that `EmitDate`
writes, tar's mode and octal fields as read, `Trim`, `Lines` and `HasKey`.

- **Searches** (`Bits`, `Csr`, `Walks`, `Morsels`, `Waves`, `Bfs`, `LaneBfs`):
  breadth-first search over a compressed adjacency. Rounds go along the edges or
  against them, threads work through a round in any order over a shared bitmap, and
  64 searches share a pass with a bit each. All of it comes to the lengths of
  shortest walks, exactly where the threads' ranges end within 32 bits.
- **The write-ahead log** (`WalRecord`, `WalCodec`, `WalBytes`, `WalFrames`,
  `WalLog`, `GroupCommit`): twelve kinds of record in checksummed frames, and writers
  that share the syncs. Written and read are inverse in both directions, a log cut or
  torn at any byte delivers each transaction whole or not at all, one sync serves
  every commit that was waiting when it began, and a commit that comes back is on the
  platter exactly as long as no cut overtakes a sync.
- **Values** (`Decimal`, `Calendar`, `Clock`, `Duration`, `Temporal`, `Spellings`,
  `Value`, `Encoding`, `EncodingTypes`, `Show`, `Arena`): the `{type, value}` encoding
  of the conformance corpus, from int64 parsing with its unsigned wrap-around and
  calendar arithmetic up to `cv_decode`, `cv_show` and `cv_same`. Printing and reading
  are inverse on exactly the values that can be spelled, and spellings that are never
  printed are tied to those that are.
- **The block-YAML reader** (`Utf8`, `YamlScan`, `YamlLex`, `YamlParse`,
  `YamlRender`, `YamlText`, `YamlRules`): the shared-stack descent refines a plain
  recursion, and a renderer with arbitrary comments and blank lines is undone by it.
  `Encoding.ValueRoundTrip` joins the two: value to file to value. `YamlRules` is
  about files no renderer writes, and what is refused.
- **The public-surface walk** (`Surface`, `Exposure`): a depth-first walk with a set
  of seen keys and a bound on depth over a cyclic graph of re-exports, against the
  least fixpoint of its rules, which know of neither; and the rules against what is
  public, told item by item.
- **Releases** (`Tar`, `TarLayout`, `Sha256`, `Sha256Tables`, `Sha256Vector`,
  `DigestList`, `Release`, `ReleaseFiles`, `ReleaseCheck`): the ustar writer and reader, SHA-256
  against FIPS 180-4 down to its constants and its published example, and the
  directory that is assembled from a table and verified against it.
- **Lookups** (`ApiMap`, `Terms`, `TermRules`, `Strip`, `TomlScan`, `Toml`,
  `TomlRules`): searches that have to agree with a full scan, the prose they run
  over, and the TOML subset the tables are written in.

`Common` holds what they share. Text is a `string` with one `char` to a byte
where the source works on bytes. A failure is `None`, or the kind of failure
where a caller can tell kinds apart.

## What the code does that its comments do not say

Each of these is proved, with the condition under which the comment holds.

- `parse_int` forms `limit - digit` before comparing, so a range that does not
  hold every single digit lets one digit through (`Decimal.MachineIntExactIff`).
  Every range the encoding uses is wide enough (`Encoding.TypesAreExact`).
- `scaled` tests `unit * frac` for overflow before dividing, so `PT0.002562048H`
  is refused although its value is small (`Duration.ScaledExact`,
  `Duration.FractionRefused`). Nothing in it overflows, nor in the parsers about
  it: their numbers are `Common.Int64`, whose every operation is shown to stay in
  an `int64_t`.
- `cv_show` writes control bytes as `\u{..}`, which the reader does not read, and
  a name between bare quotes; what is shown can be pasted back exactly when
  `Show.ShownStringIff` and `Show.PasteIff` say.
- `group_of` and a scan of the groups part at a path with three colons in a row
  (`ApiMap.SearchEqualsScan`).
- `parse_value` passes over every hole of a list that ends in a comma, once
  something came before that comma: `["s",,]` is a list of one
  (`TomlScan.HoleAtTheEnd`). `TomlScan.HolesReadIff` says which texts of lists
  are read otherwise than their items say, for every text; and a list item is
  split at a comma inside its quotes (`TomlScan.ListReadsIff`).
- The term index holds singulars, so a form of one word is never met in the
  plural (`Terms.IndexLosesOnlyPlurals`): a table that forbids `vertex` finds
  nothing in `vertexs` (`Terms.VertexsIsMissed`).
- The walk of the public surface stops at 32 names in a path. Where no reachable
  path is longer it files all that the rules file (`Surface.Build`); otherwise it
  loses the longer names and no others, but for names one longer that a visit at the
  bound files for its own members (`Surface.LostIff`). A crate that re-exports itself
  has such names at every depth (`Surface.DepthDrops`).
- Two artifacts of one expanded name are assembled into one file, and verifying
  then reports that file missing (`ReleaseCheck.AssembleThenVerify`).
- `bottom_up_level` adds up the end of a thread's range in 32 bits. Where the last
  range ends past them it wraps, and the range is empty. A search with a reversal is
  right on every graph of a size exactly when that does not happen
  (`Waves.SearchRightIff`); where it does, a search from one node already goes wrong
  at its second hop (`Waves.WrongSearch`). Of 2^32 - 1 nodes two threads scan the
  lower half (`Morsels.LargestIsHalved`); up to 2^31 nodes are always scanned
  (`Morsels.SmallEndsInTime`).
- `append` writes a body's length in 32 bits, so a longer body is not found again
  (`WalFrames.FrameReadsIff`); a record whose lists do not go together is written
  and then refused (`WalRecord.RecordRoundTripIff`).
- A log cut short delivers a prefix of what the whole one does, exactly when the
  notes that were cut off fold no transaction the rest had still to deliver
  (`WalFrames.CutIsPrefixIff`). A transaction, the note that folds it, and a cut
  between the two: the cut log delivers the transaction and the whole one nothing
  (`WalFrames.LostNote`).
- A write torn into zeroed room can be whole all the same, where the bytes that did
  not arrive were zeros; short of that, and of a collision of the checksum, the
  transaction is refused (`WalFrames.TornTxn`).
- `durable` can come to lie above `staged`. When the log is cut while a sync is in the
  air, the sync lands on the marks of the log as it was, and a commit staged next comes
  back with none of its bytes synced (`GroupCommit.LostCommit`). A cut is safe, whatever
  follows it, exactly when no sync in the air claims more than it leaves
  (`GroupCommit.CutIsSafeIff`), and where all are the promise holds in every run
  (`GroupCommit.QuietRunsPromise`).
- A digest list cannot carry a name that ends in a carriage return
  (`DigestList.ListReadIff`), and an archive cannot carry a name with a NUL or a
  body of 8^11 bytes (`Tar.TarRoundTrip`).
- `cv_alloc` rounds the last seven sizes of a `size_t` to zero
  (`Arena.NeedHoldsIff`).

## Model

| member | source | states |
|---|---|---|
| Bits.ClearsLowest | crates/zu-query/src/recursive.rs:251-255 | `m & (m - 1)` is `m` without the bit that `trailing_zeros` names |
| Bits.MarkOne | crates/zu-query/src/recursive.rs:60-62 | setting one node's bit in a bitmap of words sets it and no other |
| Csr.Build | crates/zu-query/src/csr.rs:93-109 | the edges given and no others, each once, every list ascending, whatever order and repeats they came in |
| Csr.Offsets | crates/zu-query/src/csr.rs:96-104 | counts summed in place: a node's offset is the number of edges that leave a node before it |
| Csr.Reversed | crates/zu-query/src/csr.rs:31-40 | `w` joins to `v` in the reversal exactly when `v` joins to `w` |
| Csr.SameEdges | crates/zu-query/src/csr.rs:7-21 | there is one such adjacency for a set of edges |
| Csr.ReversedTwice | crates/zu-query/src/csr.rs:31-40 | reversing twice gives the adjacency back |
| Walks.WithinIffWalk | crates/zu-query/src/recursive.rs:64-67 | being within so many hops by rounds is there being a walk of so many edges |
| Walks.LevelIsShortest | crates/zu-query/src/recursive.rs:64-67 | a level is the length of a shortest walk from any source; the mark of the unreached says that there is none within the bound, and is no level |
| Walks.HopsNext | crates/zu-query/src/recursive.rs:16-19 | what is first reached one hop further is what the nodes at this depth join to and is new |
| Bfs.FetchOr | crates/zu-query/src/recursive.rs:118-127 | sets one bit of the shared bitmap and says whether it was clear |
| Bfs.Race | crates/zu-query/src/recursive.rs:133-144 | threads with targets of their own, one `fetch_or` of any of them at a time: whatever the order, each target that was clear is claimed once among them and the bitmap gains those and no others |
| Bfs.RaceBack | crates/zu-query/src/recursive.rs:157-197 | threads with nodes of their own, loading a bit and setting it being two steps with any of the others' between: each wanted node that was clear is claimed once, and the bitmap gains those and no others |
| Morsels.WordsApart | crates/zu-query/src/recursive.rs:178-180 | no two threads' ranges share a word of the bitmap |
| Morsels.RangesOnce | crates/zu-query/src/recursive.rs:180-192 | no node is in two ranges |
| Bfs.TopDownLevel | crates/zu-query/src/recursive.rs:117-145 | on one thread or many, the next frontier is each new node the frontier joins to, once |
| Bfs.BottomUpLevel | crates/zu-query/src/recursive.rs:150-198 | the same next frontier, by looking back along the reversal, of the nodes that are scanned |
| Morsels.ScansAllIff | crates/zu-query/src/recursive.rs:176-190 | all nodes are scanned exactly when the last thread's range ends within 32 bits |
| Morsels.SmallEndsInTime | crates/zu-query/src/recursive.rs:176-190 | which it does in every graph of at most 2^31 nodes |
| Morsels.LargestIsHalved | crates/zu-query/src/recursive.rs:176-190 | of 2^32 - 1 nodes two threads scan the lower 2^31 and none of the others |
| Waves.WaveLevelIsLevel | crates/zu-query/src/recursive.rs:90-110 | rounds that leave no node out come to the hop counts |
| Waves.WrongSearch | crates/zu-query/src/recursive.rs:90-110 | for every size and number of threads whose last range wraps, a graph and a node two hops from node 0 that the search leaves unreached |
| Waves.SearchRightIff | crates/zu-query/src/recursive.rs:68-112 | for each size and number of threads, the search with a reversal finds every hop count of every graph exactly when the last range ends within 32 bits |
| Bfs.RecursiveBfs | crates/zu-query/src/recursive.rs:68-112 | on every graph each level is the round that visits the node, of rounds over what they scan, however threads ran; and it is the hop count from the nearest source within the bound where no reversal is given or all nodes are scanned |
| LaneBfs.SpreadAll | crates/zu-query/src/recursive.rs:231-242 | in one pass every node gets the lanes that come to it and had not seen it, and is listed once if any did |
| LaneBfs.TellLanes | crates/zu-query/src/recursive.rs:251-255 | each lane of a mask is told once |
| LaneBfs.MultiSourceBfs | crates/zu-query/src/recursive.rs:204-259 | for up to 64 sources, every pair of a source and a node within the bound is told exactly once, at its hop count, and nothing else is |
| LaneBfs.EachPairOnce | crates/zu-query/src/recursive.rs:200-203 | so a pair is told at one level exactly when the node can be reached within the bound |
| LaneBfs.OneBfsPerSource | crates/zu-query/src/recursive.rs:298-314 | the pairs of the searches one at a time, at the levels those come to on every graph, which are the same pairs where the searches are right |
| LaneBfs.MultiSourceMorsels | crates/zu-query/src/recursive.rs:319-357 | the same pairs for any number of sources, batches being done in any order |
| LaneBfs.HybridBfs | crates/zu-query/src/recursive.rs:267-281 | the same pairs on either side of the policy, where the searches are right, and theirs otherwise |
| WalRecord.RecordReads | crates/zu-zu1/src/wal.rs:219-458 | every well-formed record is read back from its payload |
| WalRecord.RecordExact | crates/zu-zu1/src/wal.rs:311-458 | what is read is well formed, and its payload is the bytes it was read from, to the last |
| WalRecord.RecordRoundTripIff | crates/zu-zu1/src/wal.rs:219-458 | a record is read back exactly when its lists go together, their lengths fit 32 bits and no label is both set and cleared |
| WalCodec.EncodePayload | crates/zu-zu1/src/wal.rs:219-309 | appends the record's payload |
| WalCodec.Decode | crates/zu-zu1/src/wal.rs:311-458 | the reader's steps over its position come to the record the bytes mean, or a refusal |
| WalCodec.Reader.TakeNum | crates/zu-zu1/src/wal.rs:466-499 | a number off the front and the position past it, or nothing when the bytes run out |
| WalBytes.LePlaces | crates/zu-zu1/src/wal.rs:487-493 | byte `i` of a number is its digit of 256 to the power `i` |
| WalBytes.ShareIff | crates/zu-zu1/src/wal.rs:430-440 | a label is both set and cleared exactly when the two masks have a bit in common |
| WalBytes.Marks | crates/zu-zu1/src/wal.rs:200-217 | a begin, a commit and a note are an epoch and the kinds 1, 7 and 9 |
| WalBytes.Rows | crates/zu-zu1/src/wal.rs:219-309 | the bytes of rows inserted, with a column of each kind of value, of rows deleted and of rows referred to |
| WalBytes.Edges | crates/zu-zu1/src/wal.rs:219-309 | the bytes of edges inserted, deleted and changed: all sources before all targets |
| WalBytes.Changes | crates/zu-zu1/src/wal.rs:219-309 | the bytes of cells changed, of labels set and cleared, and of a catalogue |
| WalBytes.Framed | crates/zu-zu1/src/wal.rs:926-937 | a frame is its body's length, its body's checksum and its body |
| WalFrames.FrameReadsIff | crates/zu-zu1/src/wal.rs:926-943 | a frame is found again, whatever follows it, exactly when its body has a header and a length that 32 bits hold |
| WalFrames.ScanIsLog | crates/zu-zu1/src/wal.rs:841-870 | any file at all is the log of the frames found in it and a tail that opens with none |
| WalFrames.LogScans | crates/zu-zu1/src/wal.rs:841-870 | a log is found to its end, whatever opens with no frame behind it |
| WalFrames.CutScans | crates/zu-zu1/src/wal.rs:1129-1145 | cut at any byte, a log is found up to the last frame that is whole |
| WalFrames.TornWrite | crates/zu-zu1/src/wal.rs:856-869 | a write torn at any byte into zeroed room leaves the log before it, the frames that arrived whole, and what the torn one with zeros behind it opens with |
| WalFrames.TornWriteIs | crates/zu-zu1/src/wal.rs:856-869 | which is nothing, or the torn body with zeros for the rest of it, exactly when there is room and its checksum is the frame's own; the other frames are the ones that were written |
| WalFrames.Reopens | crates/zu-zu1/src/wal.rs:872-907 | reserved room is no frame: a log opens to what it was |
| WalFrames.EntryReadsIff | crates/zu-zu1/src/wal.rs:926-943 | an epoch and a record come back from a body exactly when the record is well formed and the epoch has 64 bits |
| WalFrames.ReplayedIs | crates/zu-zu1/src/wal.rs:1091-1125 | replaying frame by frame delivers the committed transactions above the floor, each from its begin to its commit, in log order, and nothing of any other |
| WalFrames.CommitPoint | crates/zu-zu1/src/wal.rs:959-969 | a transaction is delivered whole once its commit is in the log, and not at all before |
| WalFrames.CutTxn | crates/zu-zu1/src/wal.rs:959-969 | a transaction behind a log, cut at any byte: opened and replayed it gives what was committed before, and the whole transaction as well exactly when every byte is there |
| WalFrames.TornTxn | crates/zu-zu1/src/wal.rs:959-969 | the same torn at any byte into zeroed room, unless the zeros complete a frame that collides with the one written; an error, if any, comes after what was committed before |
| WalFrames.LogDelivers | crates/zu-zu1/src/wal.rs:1068-1127 | a log and whatever opens with no frame behind it deliver what was committed in the log |
| WalFrames.CutDelivers | crates/zu-zu1/src/wal.rs:1068-1145 | cut at any byte, a log delivers without an error what was committed in its whole frames |
| WalFrames.CutIsPrefixIff | crates/zu-zu1/src/wal.rs:1068-1145 | and that opens what the whole log delivers exactly when no commit it delivers is at or below the floor that all notes set |
| WalFrames.LostNote | crates/zu-zu1/src/wal.rs:1083-1090 | a log of 51 bytes that delivers nothing, and delivers a transaction when it is cut at byte 34 |
| WalFrames.KeptIsBelow | crates/zu-zu1/src/wal.rs:993-1003 | where epochs only go up, what a rollback keeps is every frame at or below the floor |
| WalLog.Wal.Open | crates/zu-zu1/src/wal.rs:841-870 | the intact frames are kept and everything behind them is zeros |
| WalLog.Wal.Reserve | crates/zu-zu1/src/wal.rs:892-907 | room for what is needed, zeroed, and the log as it was |
| WalLog.RoomIsEnoughAndNoMore | crates/zu-zu1/src/wal.rs:892-907 | room is kept while it is enough, and otherwise grows by 64 KiB at least and to less than a MiB past the need |
| WalLog.RoomDoubles | crates/zu-zu1/src/wal.rs:805-822 | a log that grows a little at a time doubles its room from 64 KiB to a MiB and then adds a MiB at a time |
| WalLog.Wal.Append | crates/zu-zu1/src/wal.rs:926-943 | for every record: one frame more at the end of file and buffer together, written out when the buffer is full |
| WalLog.Wal.Flush | crates/zu-zu1/src/wal.rs:945-958 | the staged frames are behind the others in the file, zeros behind them |
| WalLog.Wal.StageCommit | crates/zu-zu1/src/wal.rs:983-987 | the commit frame is last and everything is in the file |
| WalLog.Wal.RollbackAbove | crates/zu-zu1/src/wal.rs:1004-1029 | of the frames that are found, those before the first above the floor, and nothing staged |
| WalLog.Wal.Truncate | crates/zu-zu1/src/wal.rs:1042-1058 | no frames, and the room kept as zeros |
| WalLog.Wal.Replay | crates/zu-zu1/src/wal.rs:1068-1127 | the notes' floor from one pass, and what the sink is given by the second, up to the first entry it refuses |
| GroupCommit.EveryRunKeeps | crates/zu-zu1/src/wal.rs:711-789 | in every run of stages, cuts, turns and syncs: a sync is announced exactly while one writer leads, there are never two, the count of those waiting is right, and a leader's sync reaches its own byte unless that was cut off |
| GroupCommit.QuietRunsPromise | crates/zu-zu1/src/wal.rs:703-789 | where every cut is quiet, a commit that came back well is on the platter or was cut off, and what is durable is never above what is staged |
| GroupCommit.FromTheStart | crates/zu-zu1/src/wal.rs:637-653 | and so it does in every such run of a log just opened |
| GroupCommit.CutIsSafeIff | crates/zu-zu1/src/wal.rs:664-671 | the promise outlives a cut in all that can follow exactly when no sync in the air claims more than the cut leaves |
| GroupCommit.LostCommit | crates/zu-zu1/src/wal.rs:603-604 | six steps after which `durable` is 100, `staged` is 60, and a commit of 60 bytes is back with none of them synced |
| GroupCommit.LeaderIsServed | crates/zu-zu1/src/wal.rs:749-789 | in any run a leader that comes back well has its byte on the platter, or it was cut off |
| GroupCommit.OneSyncForAll | crates/zu-zu1/src/wal.rs:569-584 | in every run: whatever is staged, cut or looked at while a sync is in the air, once it lands each commit that was owing when it began is back, or is at its next turn, if its byte was in the log by then or is in it no more |
| GroupCommit.BurstCostsOneSync | crates/zu-zu1/src/wal.rs:569-584 | a writer that finds nobody syncing leads, and its one sync brings back itself and all that were owing, whether it paused or not |
| GroupCommit.SomeoneLeads | crates/zu-zu1/src/wal.rs:724-745 | a commit that looks is back, or leads when no sync is announced, or waits for the one that is |
| GroupCommit.FailureStands | crates/zu-zu1/src/wal.rs:611-614 | between a sync that failed and one that lands, or a synced cut, no commit comes back well |
| GroupCommit.FailureIsTold | crates/zu-zu1/src/wal.rs:785-788 | the leader of a sync that failed is told so, the log is marked, and nothing counts as durable for it |
| GroupCommit.StagedGrows | crates/zu-zu1/src/wal.rs:655-659 | writing the log out moves its end up and never down and makes nothing durable; a commit that is staged is one more, owing, that ends there |
| GroupCommit.SettledIsDurable | crates/zu-zu1/src/wal.rs:673-678 | a log that says it is settled has every byte on the platter, where every cut was quiet |
| GroupCommit.CutSettles | crates/zu-zu1/src/wal.rs:661-671 | a synced cut settles the log whatever failed before it; any other leaves it owing all that it holds |
| Decimal.ParseInt | conformance/c/value.c:222-253 | the machine's answer, every `uint64_t` wrap included; on a range that holds every single digit it is the value of the optionally signed digits or a refusal, never a wrapped number |
| Decimal.DigitLoop | conformance/c/value.c:238-248 | the accumulation loop against a recursion that wraps at 2^64 as the loop does |
| Decimal.MachineIntExactIff | conformance/c/value.c:222-253 | for every text the machine reads the number meant, exactly when the range holds every single digit on the sides of zero it has; outside that, `limit - digit` wraps |
| Decimal.OneDigitOver | conformance/c/value.c:240-245 | the digit one past a range narrower than nine is let through |
| Decimal.Digits | conformance/c/value.c:259-267 | a run of digits in a larger literal: an int64 that is not negative, a leading `+` allowed |
| Decimal.IntRoundTrip | conformance/c/value.c:222-253 | every int64, INT64_MIN included, printed in decimal is read back |
| Calendar.FloorDivIsFloor | conformance/c/value.c:364-369 | C's truncating division corrected to the floor, quotient and remainder, for every sign |
| Calendar.DaysRoundTrip | conformance/c/value.c:388-409 | for every integer day count the date is valid and counts back to it |
| Calendar.DateRoundTrip | conformance/c/value.c:388-409 | for every valid proleptic Gregorian date, any year, counting and uncounting gives the date |
| Calendar.NextDay | conformance/c/value.c:371-396 | the calendar's next day, by month lengths and leap years, is one day more |
| Calendar.Epoch | conformance/c/value.c:380-396 | day zero is 1970-01-01 |
| Clock.ParseDate | conformance/c/value.c:412-425 | the ten-byte form, year 1 to 9999, a day the month has |
| Clock.ParseOffset | conformance/c/value.c:472-503 | an offset is `hh`, `hhmm` or `hh:mm`, up to 18:59 |
| Clock.SplitOffset | conformance/c/value.c:455-507 | where the zone starts and what it is worth: `Z`, a sign past the front, or none |
| Clock.OffsetSpellings | conformance/c/value.c:472-503 | the three spellings of an offset are one number of minutes |
| Clock.ReadZoneText | conformance/c/value.c:455-507 | an offset as printed is split off again from any body with no sign in it |
| Clock.ParseSeconds | conformance/c/value.c:430-449 | seconds and up to nine digits of fraction, scaled to nanoseconds |
| Clock.ParseClock | conformance/c/value.c:510-555 | `hh:mm` or `hh:mm:ss.f` as nanoseconds of the day |
| Clock.ParseTime | conformance/c/value.c:510-555 | a clock and an optional zone |
| Clock.ReadTimeText | conformance/c/value.c:1340-1348 | every time of day as printed, fraction trimmed of nothing or nine digits long, reads back |
| Clock.ParseDatetime | conformance/c/value.c:561-595 | a date, `T` or a space, a clock and an optional zone, within the days an int64 of nanoseconds holds |
| Clock.ReadDatetimeText | conformance/c/value.c:1350-1363 | every local instant in range as printed reads back, instants before 1970 included, whatever zone follows |
| Clock.ReadDatetimeRange | conformance/c/value.c:561-595 | whatever is read lies in the range the printer is proved on |
| Duration.Scaled | conformance/c/value.c:598-633 | a number with a point or a comma times a unit: every product and sum on the way is within an int64, and the result is that of unbounded arithmetic or a refusal |
| Duration.Fraction | conformance/c/value.c:607-626 | the digits after the point, the scale and the product within an int64 |
| Clock.OfDay | conformance/c/value.c:537-541 | the nanoseconds of a time of day, all sums within an int64 and less than a day |
| Duration.ScaledExact | conformance/c/value.c:598-633 | with a point or a comma, the whole part there or not: the exact product plus the truncated fraction, refused exactly when that does not fit or `unit * frac` does not |
| Duration.FractionRefused | conformance/c/value.c:620-626 | `PT0.002562048H` is no duration, though its value fits: the product is tested before the division |
| Duration.Fields | conformance/c/value.c:649-702 | the loop over fields against the sum of what each field is worth |
| Duration.Worthy | conformance/c/value.c:660-700 | what a unit letter is worth in each part, an unknown one or a fractional month refused |
| Duration.FieldsRoundTrip | conformance/c/value.c:649-702 | a list of well-formed fields written out is split into the same fields |
| Duration.ReadFieldsExact | conformance/c/value.c:649-702 | a text that reads as fields is the fields written out, byte for byte |
| Duration.SumConcat | conformance/c/value.c:635-702 | the sum over two lists of fields is the sums of the two added |
| Duration.ParseDuration | conformance/c/value.c:708-752 | sign, `P`, date part and time part: months or nanoseconds and never both |
| Duration.ReadDurationRange | conformance/c/value.c:708-752 | every duration read is within plus or minus INT64_MAX, and months are never zero: a zero duration is day-time |
| Duration.DurationRoundTrip | conformance/c/value.c:1373-1416 | every such duration as printed reads back to its kind and count, negative ones and fractions included |
| Temporal.ParseTemporal | conformance/c/value.c:756-809 | the seven types, a zoned instant shifted to UTC and refused if the shift leaves an int64 |
| Temporal.TemporalRoundTrip | conformance/c/value.c:754-809 | every representable value is shown as text that reads back to it: unit, count and offset |
| Temporal.SpelledIffRepresentable | conformance/c/value.c:754-809 | some text spells a value exactly when the value is in the range of its unit |
| Temporal.ShowThenRead | conformance/c/value.c:1340-1416 | whatever was read, however spelled, is shown as text that reads to the same value |
| Temporal.OneInstantTwoZones | conformance/c/value.c:786-800 | one instant written in two zones is one count |
| Temporal.NoTextForTheLeast | conformance/c/value.c:708-752 | no text spells a duration of INT64_MIN |
| Spellings.SignedIntegers | conformance/c/value.c:222-253 | a plus in front of digits says nothing and a minus the opposite, no minus where the least is zero |
| Spellings.TwoSigns | conformance/c/value.c:222-253 | no integer is signed twice |
| Spellings.OnlyDigits | conformance/c/value.c:222-253 | nothing, a sign alone and a text with anything else than digits behind its first byte are no integers |
| Spellings.ZeroInFront | conformance/c/value.c:238-248 | zeros in front say nothing |
| Spellings.WrittenDate | conformance/c/value.c:412-425 | of all four, two and two digits, exactly the days of the calendar from the year 1 on are dates |
| Spellings.WrittenClock | conformance/c/value.c:510-555 | of all three pairs of digits, exactly 24 hours of 60 minutes of 60 seconds are times, each worth its seconds |
| Spellings.WrittenOffset | conformance/c/value.c:479-503 | an offset is up to 18 hours and any minute of an hour |
| Spellings.NoSeconds | conformance/c/value.c:527-531 | a time without seconds is at second zero |
| Spellings.FractionOfASecond | conformance/c/value.c:430-449 | a fraction of a second is worth the same with a zero behind it, up to nine digits |
| Spellings.ZuluSpellings | conformance/c/value.c:464-468 | `Z`, `z` and an offset of nothing on either side are one zone |
| Spellings.MarkSpellings | conformance/c/value.c:561-595 | `T`, `t` and a space are one mark between a date and a time |
| Spellings.MidnightOf | conformance/c/value.c:561-595 | a date alone is its midnight |
| Spellings.TimesAndZones | conformance/c/value.c:768-782 | a local time is one with no zone written, and a zoned one without takes UTC |
| Spellings.DatetimesAndZones | conformance/c/value.c:783-812 | and so for a time with its date |
| Spellings.EastIsAhead | conformance/c/value.c:786-800 | what a clock shows at midnight UTC is the offset it writes with a plus |
| Spellings.WestIsBehind | conformance/c/value.c:786-800 | and at its own midnight UTC is ahead by the offset it writes with a minus |
| Spellings.UnitsInUnits | conformance/c/value.c:660-700 | a week is seven days, a day 24 hours, an hour 60 minutes, a minute 60 seconds and a year twelve months, however many and whether or not they fit |
| Spellings.LeastUnits | conformance/c/value.c:660-700 | and a second is 10^9 nanoseconds and a month one of the months counted |
| Spellings.LowerDuration | conformance/c/value.c:660-724 | every text is the same duration with all its letters in lower case |
| Spellings.AlikeDurations | conformance/c/value.c:596-724 | any two texts alike but for the case of their letters and for which of comma and point they write are the same duration, or both none |
| Spellings.NothingIsNoDuration | conformance/c/value.c:730-732 | nothing, a `P` and a `PT` are no durations |
| Spellings.UnitsOnTheirSide | conformance/c/value.c:680-692 | years, months, weeks and days before the `T` only, hours, minutes and seconds behind it only, and no other letter |
| Spellings.KindsDoNotMix | conformance/c/value.c:737-746 | months and nanoseconds are never in one duration; a field worth nothing is of either kind |
| Spellings.SignedDuration | conformance/c/value.c:713-717 | a plus in front of a duration says nothing and a minus counts the other way |
| Value.SameValue | conformance/c/value.c:1535-1579 | `cv_same` is equality of canonical forms, hence an equivalence on all nested lists and paths |
| Value.FloatsThatAreSame | conformance/c/value.c:1529-1548 | floats are the same when their bits are or both are NaN; the zeros differ |
| Value.NaNsAre | conformance/c/value.c:1548-1553 | a NaN is an exponent of ones and a fraction that is not zero |
| Value.ScalarsThatAreSame | conformance/c/value.c:1535-1579 | booleans are the same by their truth, and of all but those, floats and lists only equal values are |
| Value.ListsThatAreSame | conformance/c/value.c:1535-1579 | lists are the same item by item, paths likewise, and a list is never a path |
| Value.ParseHexits | conformance/c/value.c:898-932 | pairs of hex digits with blanks anywhere, held half an octet at a time |
| Value.HexRoundTrip | conformance/c/value.c:898-932 | every run of octets written in hex is read back |
| Spellings.HexSpellings | conformance/c/value.c:876-916 | hexits spell the same octets in lower case and with a blank anywhere among them |
| Spellings.OnlyHexits | conformance/c/value.c:898-932 | nothing but an even number of hexits and blanks is read |
| Value.LastByte | conformance/c/value.c:1038-1046 | the last occurrence of a byte |
| Value.Arrow | conformance/c/value.c:1050-1060 | the first `->` |
| Value.VertexAt | conformance/c/value.c:1077-1099 | a table up to the last `#`, and an offset |
| Value.EdgeAt | conformance/c/value.c:1104-1132 | a table up to the last `#`, and two offsets about the first `->` after it |
| Value.VertexRoundTrip | conformance/c/value.c:1077-1099 | a node reads back under any table name that is not empty, one with `#` or `->` in it included, up to INT64_MAX |
| Value.EdgeRoundTrip | conformance/c/value.c:1104-1132 | the same of an edge and both its ends |
| Encoding.TypesAreExact | conformance/c/value.c:823-851 | every integer type's range is one the range check is exact on |
| Encoding.Walk | conformance/c/value.c:1137-1156 | a path is an odd number of items, nodes and edges in turn |
| Encoding.DecodeNode | conformance/c/value.c:1240-1277 | `type` and `value` and nothing else, the type's name up to its first NUL |
| Encoding.DecodePayload | conformance/c/value.c:1161-1235 | which payloads are quoted, which are sequences, and what each spells |
| Encoding.DecodeItems | conformance/c/value.c:1161-1235 | the items of a list or path, all decoded or none |
| Encoding.GetItem | conformance/c/yaml.c:772-784 | the value under the first key of the name |
| Encoding.HasUnknown | conformance/c/yaml.c:822-840 | whether a key is neither of the two known |
| Encoding.ScalarTextReads | conformance/c/value.c:936-1033 | the text written for a scalar spells the same scalar under its own type |
| Encoding.DecodeEncode | conformance/c/value.c:1161-1277 | decoding the tree written for a value gives the same value |
| Encoding.DecodeSame | conformance/c/value.c:1240-1277 | a decoded value does not depend on line numbers |
| EncodingTypes.IntegersByWidth | conformance/c/value.c:988-1033 | of all integers, each integer type holds exactly those of its width, those of 64 bits in quotes and the others bare, UINT64 up to INT64_MAX |
| EncodingTypes.FloatsByWidth | conformance/c/value.c:964-976 | FLOAT32 and FLOAT64 are in quotes, and only the first is narrowed |
| EncodingTypes.StringsAndBooleans | conformance/c/value.c:940-958 | a string is any text, in quotes or bare; a boolean is one of two words, bare |
| EncodingTypes.Moments | conformance/c/value.c:969-987 | each temporal name is in quotes and read as its own unit |
| EncodingTypes.TextsInQuotes | conformance/c/value.c:1205-1226 | octets, nodes and edges are in quotes, and bare they are nothing |
| EncodingTypes.TablesHaveNames | conformance/c/value.c:1077-1132 | no node and no edge is read without a name for its table, nor with a row past INT64_MAX |
| EncodingTypes.WalksAlternate | conformance/c/value.c:1137-1156 | what a path may hold is a node, or a node, an edge and what a path may hold |
| EncodingTypes.ListsOfItems | conformance/c/value.c:1170-1196 | a list of nothing is a key with nothing under it, which is no path; a list is its items decoded, and a path those of a walk |
| EncodingTypes.OnlyThisShape | conformance/c/value.c:1240-1277 | what decodes has a `type`, a `value` exactly when it is not null, and no other key |
| Encoding.ValueRoundTrip | conformance/c/value.c:1240-1277 | a value written to a file, with any comments, blank lines and trailing space, then lexed, parsed and decoded, is the same value |
| Show.CvOut.Emit | conformance/c/value.c:161-175 | the buffer holds what fits of all that was emitted, NUL terminated, and the count goes on |
| Show.CvOut.EmitDuration | conformance/c/value.c:1373-1416 | emits exactly the duration's text |
| Show.CvOut.EmitDatetime | conformance/c/value.c:1356-1360 | emits exactly the text of the date and the time of day |
| Show.CvOut.EmitQuoted | conformance/c/value.c:179-196 | quotes, short escapes and `\u{..}` for other control bytes |
| Show.CvOut.EmitValue | conformance/c/value.c:1432-1497 | emits exactly the value's text, nested values included |
| Show.CvShow | conformance/c/value.c:1502-1519 | returns the length of the whole text and leaves as much as fits, for every buffer size, zero included |
| Show.PasteIff | conformance/c/value.c:1432-1497 | text shown between bare quotes reads back as itself exactly when it holds neither a quote nor a backslash |
| Show.ShownStringIff | conformance/c/value.c:179-196 | a shown string reads back exactly when it holds no control byte but newline, return and tab |
| Show.HexDigitsSpell | conformance/c/value.c:179-196 | the digits a control byte is shown by are its code in base sixteen, lower case and with no zero in front |
| Show.ItemsJoined | conformance/c/value.c:1486-1497 | a list and a path are their items between brackets, a comma and a space between two |
| Show.ShownScalarReads | conformance/c/value.c:1432-1497 | what is shown for any scalar but a string reads back to the same value under the type shown, a boolean bare and the others in quotes |
| Utf8.ValidUtf8 | conformance/c/yaml.c:273-317 | accepts exactly concatenations of encodings of Unicode scalar values; otherwise the index starts the first ill-formed sequence and all before it is well formed |
| Utf8.Advance | conformance/c/yaml.c:276-312 | one sequence: its length, or nothing when no scalar value's encoding starts there |
| Utf8.StepDecodes | conformance/c/yaml.c:276-312 | the front decodes to a scalar value exactly when that value's encoding is its prefix |
| Utf8.EncodePrefixFree | conformance/c/yaml.c:273-317 | no text opens with the encodings of two scalar values |
| YamlScan.ClosingQuote | conformance/c/yaml.c:211-243 | the scan for the closing quote, escapes and doubled quotes passed over |
| YamlScan.FindCloseIff | conformance/c/yaml.c:211-243 | a quote closes the run exactly when the text before it is whole units none of which ends it, and it is not half of a doubled quote |
| YamlScan.StripComment | conformance/c/yaml.c:248-263 | a `#` opens a comment only at the start or after a space and outside quotes that close |
| YamlScan.SplitKey | conformance/c/yaml.c:411-446 | a bare key before the first `: ` or a final colon, and what follows it |
| YamlScan.UnescapeInto | conformance/c/yaml.c:480-519 | the unescape loop: what the body spells, written inside a buffer of the body's length |
| YamlScan.NoTrailingBackslash | conformance/c/yaml.c:496-500 | between the quotes that were found no body ends in a lone backslash: that error is unreachable |
| YamlScan.ReadScalar | conformance/c/yaml.c:462-529 | a quoted run to the end of the text, or a bare word that opens no construct this reader lacks |
| YamlScan.QuotedReads | conformance/c/yaml.c:462-529 | any text at all comes back from either quoting style |
| YamlLex.ScanLine | conformance/c/yaml.c:321-391 | one physical line: indent, comment, trailing space, tabs and markers refused |
| YamlLex.SplitContent | conformance/c/yaml.c:356-386 | a `- ` in front of content is a logical line of its own and the content another, two columns deeper; two dashes or two spaces are refused |
| YamlLex.Lex | conformance/c/yaml.c:321-391 | the file line by line against the recursion over its first line |
| YamlParse.Parser.ParseNode | conformance/c/yaml.c:637-651 | the node at this indent is the one the plain recursion builds; the line index moves strictly, and both stacks are as they were |
| YamlParse.Parser.ParseSeq | conformance/c/yaml.c:565-589 | the same of a sequence built on the shared stack |
| YamlParse.Parser.ParseMap | conformance/c/yaml.c:593-635 | the same of a mapping, a repeated key refused when it is met |
| YamlParse.Parser.Harvest | conformance/c/yaml.c:541-560 | takes exactly what is above the two base heights, in order, and leaves what is below |
| YamlParse.BuildWellFormed | conformance/c/yaml.c:541-651 | no level is empty, keys are bare and each set once, and only a key's value may be missing |
| YamlParse.Parse | conformance/c/yaml.c:653-685 | the whole file: a tree only when every logical line was used |
| YamlRender.BuildRows | conformance/c/yaml.c:541-651 | the recursion undoes the rows a tree is written as, at any indent and from any line |
| YamlText.LexFile | conformance/c/yaml.c:321-391 | the lexer undoes the file the rows are laid out in, whatever comments and blank lines are added |
| YamlText.RenderRoundTrip | conformance/c/yaml.c:321-685 | every tree of the subset, quoted scalars being any UTF-8 text, is read back from its file with any remarks added |
| YamlRules.CrlfParses | conformance/c/yaml.c:347-351 | a file reads the same whichever of the two line ends it was saved with |
| YamlRules.CommentIff | conformance/c/yaml.c:245-263 | where no quoted run closes, a comment is at the first `#` at the start or after a space: a `#` or a quote in a word is part of the word, and so is a quote that opens nothing |
| YamlRules.EscapesSpell | conformance/c/yaml.c:501-512 | of all bytes after a backslash in double quotes, eight spell a byte each and the others are refused |
| YamlRules.NoEscapesInSingleQuotes | conformance/c/yaml.c:487-494 | between single quotes a backslash is a backslash |
| YamlRules.ConstructsRefused | conformance/c/yaml.c:520-529 | a bare scalar opens with none of twelve bytes, and is otherwise itself |
| YamlRules.KeySplits | conformance/c/yaml.c:411-446 | a bare key, a colon and a space or nothing: the key, and what follows |
| YamlRules.NoKey | conformance/c/yaml.c:411-446 | a colon with no space behind it and something after is no key's |
| YamlRules.LexesIff | conformance/c/yaml.c:321-391 | a file is lexed exactly when every line of it is |
| YamlRules.TabRefused | conformance/c/yaml.c:336-340 | no line holds a tab, in a comment or a string either |
| YamlRules.LinesRefused | conformance/c/yaml.c:360-386 | an odd indent, a document mark, two spaces after a dash and a dash after a dash are refused |
| YamlRules.ItemLines | conformance/c/yaml.c:382-390 | an item is its dash and, two columns further in, what follows the dash |
| YamlRules.ValuesStandTwoIn | conformance/c/yaml.c:593-635 | what a key holds on the lines below it is two columns further in, and nothing else is deeper |
| YamlRules.ItemsStandTwoIn | conformance/c/yaml.c:565-589 | a dash holds something, two columns further in |
| YamlRules.NothingUnderAScalar | conformance/c/yaml.c:593-651 | nothing stands under a value on its key's line, nor behind a bare scalar |
| Surface.Build | crates/xtask/src/model.rs:202-238 | on every finite graph the walk returns; each entity is one the rules file under that id, with just that kind, name, owner and source, and every `of` is filed; where no two visits within the depth are remembered by one key, the ids are exactly those the rules file along paths within the depth, and all the rules file where no reachable path is longer |
| Surface.LostIff | crates/xtask/src/model.rs:249-260 | of all that the rules file in a graph of plain names, what the bound loses: names longer than it, but for those one longer that a visit at the bound files |
| Surface.DepthDrops | crates/xtask/src/model.rs:257-258 | a crate that re-exports itself: the rules file a name at every depth, and no visit the walk is deep enough for files one past the bound |
| Surface.ModulesNeverClash | crates/xtask/src/model.rs:464-487 | where globs name modules and names hold no colon, no two visits share a key, so the walk is exact |
| Surface.ReachableClosed | crates/xtask/src/model.rs:257-552 | the reachable visits hold the root and are closed under the rules |
| Surface.ReachableLeast | crates/xtask/src/model.rs:257-552 | and are within every set that is |
| Surface.IdInjective | crates/xtask/src/model.rs:239-245 | two paths of plain names have one id only when they are one path |
| Surface.FilesAsFiles | crates/xtask/src/model.rs:257-552 | an entity with its kind, name, owner and source is filed only where the rules file its id |
| Exposure.FiledIffShown | crates/xtask/src/model.rs:249-552 | on every graph, the ids the rules file are exactly those of items shown: the root's public members and `use`s, what a `use` names, what a type lists and the public items of its API impls |
| Exposure.RulesFileTheShown | crates/xtask/src/model.rs:283-552 | and where globs name modules so are the entities: kind, name, owner and the path a `use` found it by |
| Exposure.BuiltIsShown | crates/xtask/src/model.rs:283-552 | on every graph, each entity that `Surface.Build` files is of something shown, under a path it is shown at |
| Exposure.PrivateStaysOut | crates/xtask/src/model.rs:287-292 | a private item that is no `use` and not the root, that no type lists and no `use` of any crate names, is shown nowhere, in a module or an impl, and is never walked |
| Surface.Walk.Push | crates/xtask/src/model.rs:253-255 | the first entity under an id stays |
| Surface.Walk.Enter | crates/xtask/src/model.rs:257-260 | a visit is entered exactly when it is not too deep and its key was not met; entering shrinks what is unseen |
| Surface.Walk.WalkModule | crates/xtask/src/model.rs:257-281 | everything added is complete: all its steps are met and all it files is filed |
| Surface.Walk.WalkMember | crates/xtask/src/model.rs:283-319 | a member is done: filed, walked or nothing, by what it is |
| Surface.Walk.WalkUse | crates/xtask/src/model.rs:450-526 | a re-export is done, in its own crate, another one, or a crate that is not there |
| Surface.Walk.Dispatch | crates/xtask/src/model.rs:529-552 | a re-export's target is done, by its kind |
| Surface.Walk.WalkType | crates/xtask/src/model.rs:321-444 | a type is complete: itself, its children and the items of its API impls |
| Tar.WriteTar | crates/xtask/src/tarball.rs:31-41 | the archive of the files in order and two zero blocks, or an error exactly when a name is over 99 bytes |
| Tar.Append | crates/xtask/src/tarball.rs:76-107 | the header and the body padded to 512 bytes, field by field |
| Tar.WriteOctal | crates/xtask/src/tarball.rs:113-118 | a field is its number in octal, cut to the field and NUL terminated; the rest of the header stays |
| Tar.OctalTail | crates/xtask/src/tarball.rs:113-118 | the last digits of the zero-padded text are the number modulo a power of eight |
| Tar.ReadEntries | crates/xtask/src/tarball.rs:122-139 | a header at a time to a zero block or the end, against the recursion |
| Tar.TarRoundTrip | crates/xtask/src/tarball.rs:31-139 | reading what was written, with anything at all behind its two zero blocks, gives the files back exactly when every name is free of NULs and every body is below 8^11 bytes |
| Tar.EntriesIff | crates/xtask/src/tarball.rs:122-139 | the same from any place in an archive |
| Tar.EntryOffsets | crates/xtask/src/tarball.rs:76-107 | each entry starts at the 512-aligned sum of the sizes before it |
| Tar.ChecksumHolds | crates/xtask/src/tarball.rs:94-103 | the checksum stored is the sum of the header with spaces in the checksum's place |
| TarLayout.HeaderLayout | crates/xtask/src/tarball.rs:83-98 | every field of the header at its offset: mode, owners and time fixed, the size in octal, a plain file, the magic and the version, and zeros elsewhere |
| TarLayout.ModeIff | crates/xtask/src/tarball.rs:53-74 | a file is unpacked as 755 exactly when its name has `bin/` or `.so` in it or ends in `.dll` or `.dylib`, and otherwise as 644 |
| TarLayout.ArchiveLayout | crates/xtask/src/tarball.rs:31-107 | each body is right behind its header, zeros fill its last block, and 1024 zeros end the archive |
| TarLayout.LenientSize | crates/xtask/src/tarball.rs:131-132 | blanks about a size, a plus in front of it and NULs behind are passed over |
| TarLayout.NotASize | crates/xtask/src/tarball.rs:131-132 | a size with anything but octal digits in it is nothing |
| Sha256.FillSchedule | crates/xtask/src/sha256.rs:67-84 | the in-place schedule is the recurrence of FIPS 180-4 section 6.2.2 |
| Sha256.Turn | crates/xtask/src/sha256.rs:88-106 | the eight reassignments of the loop are one round of the standard |
| Sha256.Compress | crates/xtask/src/sha256.rs:66-110 | the state after a block is the standard's compression of it |
| Sha256.Digest | crates/xtask/src/sha256.rs:32-63 | whole blocks, then one or two tail blocks: the words of the fold over the message padded as in section 5.1.1, big-endian |
| Sha256.Finish | crates/xtask/src/sha256.rs:42-57 | the remainder takes one block or two, and either way the state is the fold over it and its padding |
| Sha256.BigReads | crates/xtask/src/sha256.rs:55-56 | the eight length bytes read back to the length |
| Sha256.PaddedLength | crates/xtask/src/sha256.rs:42-56 | the padded message is whole blocks |
| Sha256.Hex | crates/xtask/src/sha256.rs:22-29 | 64 lower-case digits, two for each byte of the digest, high half first |
| Sha256Tables.PrimesAreFirst | crates/xtask/src/sha256.rs:117-119 | the primes the constants come from are all those below 312, which are 64, in order |
| Sha256Tables.ConstantsAreCubeRoots | crates/xtask/src/sha256.rs:117-136 | each of the 64 round constants is the first 32 bits of the fraction of the cube root of its prime |
| Sha256Tables.StartsAreSquareRoots | crates/xtask/src/sha256.rs:112-115 | each word of the initial hash is the same of the square root of its prime |
| Sha256Tables.ChChooses | crates/xtask/src/sha256.rs:89 | at all bits the first word has, the choice is the second, and at any it has not the third |
| Sha256Tables.MajAgrees | crates/xtask/src/sha256.rs:96 | the majority is what two of the three words are, at all bits where they agree |
| Sha256Vector.DigestOfAbc | crates/xtask/src/sha256.rs:138-150 | the digest of `abc` is the published one, round by round |
| Release.ListNames | crates/xtask/src/artifacts.rs:367-376 | the published names in table order, a platform row once for each target |
| Release.TargetsApart | crates/xtask/src/artifacts.rs:102-106 | a platform row's files are told apart by their targets, whatever the version is |
| Release.TargetStays | crates/xtask/src/artifacts.rs:102-106 | filling in a version leaves the target's place in the name |
| Release.ExpandFills | crates/xtask/src/artifacts.rs:102-106 | both places of a name are filled, each with its own, in either order |
| Release.Assemble | crates/xtask/src/artifacts.rs:421-491 | the table and nothing else, refused when a source is missing or the version could be a path; then the digests over what was written, by name |
| Release.ByNameSorts | crates/xtask/src/artifacts.rs:474 | the digest list is in the order of its names and holds what was made, no more and no less |
| Release.Gathering.WriteTable | crates/xtask/src/artifacts.rs:433-469 | the directory and the list of what was made are those of every product so far |
| DigestList.ListReadIff | crates/xtask/src/artifacts.rs:470-490 | the digest list gives every name its digest back exactly when no name has a line feed in it or a carriage return at its end |
| DigestList.ListLines | crates/xtask/src/artifacts.rs:480-486 | the list is one line an entry in order: the digest, two spaces and the name |
| ReleaseCheck.Verify | crates/xtask/src/artifacts.rs:498-568 | the report of the directory, or nothing when it holds a folder |
| ReleaseCheck.TakeNames | crates/xtask/src/artifacts.rs:521-532 | the expected names taken out of what was found, one by one |
| ReleaseCheck.TakePartitions | crates/xtask/src/artifacts.rs:521-532 | a name is shipped, empty or missing by what the directory holds, and a name expected twice is missing as well |
| ReleaseCheck.FaultsAreDeserved | crates/xtask/src/artifacts.rs:498-568 | for every table and directory, each of the five faults is reported exactly when its own condition on the directory holds |
| ReleaseCheck.AssembleThenVerify | crates/xtask/src/artifacts.rs:421-568 | for every table with one digest list at most: an assembled release verifies clean exactly when no two of its names are one, nothing stale was there, no product is empty, and the digest list has a product and only names it can carry |
| ReleaseFiles.AssembledIff | crates/xtask/src/artifacts.rs:421-491 | a release can be assembled exactly when its version can be part of a file name and every row's source is there |
| ReleaseFiles.FilesAreSources | crates/xtask/src/artifacts.rs:421-491 | when no two names are one, each published file is its source byte for byte, for every target, and other files stay |
| ReleaseCheck.CleanShipsNames | crates/xtask/src/artifacts.rs:498-568 | a clean release ships its names, each once, in table order |
| ReleaseCheck.HexIsGoodDigest | crates/xtask/src/sha256.rs:22-29 | what SHA-256 prints is a digest the list can carry |
| ApiMap.SortedAndUnique | crates/xtask/src/apimap.rs:350-371 | comparing neighbours decides the order of the whole list, and names the first that is out of it |
| ApiMap.FindGroup | crates/xtask/src/apimap.rs:311-319 | the prefixes longest first and a binary search for each, against the first prefix that is a group |
| ApiMap.SearchEqualsScan | crates/xtask/src/apimap.rs:301-343 | the search agrees with a full scan for the longest cover, on every ordered file, exactly when the path has no three colons in a row |
| ApiMap.GroupIsLongest | crates/xtask/src/apimap.rs:311-343 | the group found covers the path and no group that covers it is longer |
| ApiMap.PickIsUnique | crates/xtask/src/apimap.rs:288-293 | in an ordered file there is one longest cover |
| ApiMap.Map.TierOf | crates/xtask/src/apimap.rs:288-293 | an entry's tier first, and otherwise its group's |
| ApiMap.TierIs | crates/xtask/src/apimap.rs:288-293 | a path's own entry decides its tier whatever group covers it; without one, and without three colons in a row, the longest group that covers it does |
| ApiMap.CheckSurface | crates/xtask/src/apimap.rs:409-475 | the marks of two passes come to the report of what is missing and what is dead, by line and then by message |
| ApiMap.Page.SortSorts | crates/xtask/src/apimap.rs:142-146 | a report is in the order of its lines and messages, and holds what it held |
| ApiMap.Page.LinesFirst | crates/xtask/src/apimap.rs:137-146 | a problem with a line is above every one without, and lines only go up |
| ApiMap.OneProblemEach | crates/xtask/src/apimap.rs:409-475 | one problem for each offender and none for anything else, counted with repetition |
| ApiMap.CleanIffHonest | crates/xtask/src/apimap.rs:409-475 | no problem exactly when every path has an entry or a cover, every entry is public, and every group is the longest cover of some path, exceptions counting |
| ApiMap.CheckBinding | crates/xtask/src/apimap.rs:485-520 | what is bound and unnamed, and the names that are gone or nobody's to bind, by line and then by message |
| ApiMap.CleanRelease | crates/xtask/src/apimap.rs:409-520 | a ledger and a binding that both pass: the binding names all it owes and only what may be bound |
| Arena.Arena.Alloc | conformance/c/value.c:79-105 | the first chunk with room or a new one in front; the block is new, aligned, inside its chunk and apart from every block since the last reset |
| Arena.Arena.Cut | conformance/c/value.c:87-93 | a block off the front of what is left of a chunk, keeping all blocks apart and every byte given in exactly one |
| Arena.Arena.Reset | conformance/c/value.c:52-60 | every chunk kept and empty |
| Arena.NeedHoldsIff | conformance/c/value.c:80 | rounding up holds what was asked for exactly short of the last seven sizes, where it wraps |
| TomlScan.StripComment | crates/xtask/src/toml.rs:180-197 | where the comment starts, quotes and escapes passed over |
| TomlScan.Unescaped | crates/xtask/src/toml.rs:277-295 | what the body of a string spells, or a refusal |
| TomlScan.ParseValue | crates/xtask/src/toml.rs:199-256 | a string, integer, boolean or list; the list branch calls itself on its items |
| TomlScan.ValueReads | crates/xtask/src/toml.rs:199-256 | every value written out is read back, unless an integer is past an int64 or a list item holds a comma, and then it is refused |
| TomlScan.ListReadsIff | crates/xtask/src/toml.rs:222-249 | a list comes back exactly when no item holds a comma |
| TomlScan.ListReads | crates/xtask/src/toml.rs:222-249 | what every text between brackets is read as, holes and all |
| TomlScan.HolesReadIff | crates/xtask/src/toml.rs:232-243 | a list is read as its items say exactly when it hides no hole: a hole is refused, unless the list ends in a comma and something came before that comma; then every hole is passed over |
| TomlScan.HoleAtTheEnd | crates/xtask/src/toml.rs:232-243 | a string and two commas are a list of that string |
| Toml.Parse | crates/xtask/src/toml.rs:111-167 | the document read line by line, the open array's last table updated |
| Toml.DocRoundTrip | crates/xtask/src/toml.rs:111-167 | a document written with any space and comments around its lines is read as the tables it was written from, each at its line |
| Toml.FiledInOrder | crates/xtask/src/toml.rs:111-167 | what is under a name is the blocks of that name in the order written |
| TomlRules.DocsAreSound | crates/xtask/src/toml.rs:111-167 | whatever text it comes from, a document sets no key twice in a table, opens no array without a table, and all its names are bare |
| TomlRules.IntegersIff | crates/xtask/src/toml.rs:244-249 | an integer is digits and nothing else, as large as an int64 holds, and every such text is one |
| TomlRules.BooleansIff | crates/xtask/src/toml.rs:197-204 | a boolean is one of two words |
| TomlRules.StringsIff | crates/xtask/src/toml.rs:205-220 | a string is a quote, whole units none of which is a quote, and a quote at the very end, and means what they spell |
| TomlRules.EscapesDecode | crates/xtask/src/toml.rs:278-295 | of all characters after a backslash, four spell a character each and the others are refused |
| TomlRules.PairIsRead | crates/xtask/src/toml.rs:140-147 | any space or none about a bare key, its `=` and its value |
| TomlRules.HeaderIsRead | crates/xtask/src/toml.rs:122-134 | any space or none inside the brackets of a header, and a bare name |
| TomlRules.LinesRefused | crates/xtask/src/toml.rs:135-146 | no other table, no line without `=`, no key without a name |
| Terms.ListWords | crates/xtask/src/terms.rs:676-692 | the loop over bytes against the recursion |
| Terms.WordsAreRuns | crates/xtask/src/terms.rs:676-696 | the words are the maximal runs of word bytes, in order, and no word byte is outside them |
| Terms.BuildIndex | crates/xtask/src/terms.rs:243-301 | a table is accepted exactly when no two terms are one, no form is a term or wordless, and no form is there twice; its index then gives for every word all the forms that begin with it, in table order |
| Terms.FormMatches | crates/xtask/src/terms.rs:437-466 | spaces, tabs and hyphens between the words, each word as the form has it, the last perhaps plural |
| Terms.Hits | crates/xtask/src/terms.rs:386-420 | the index and one pass find exactly what trying every form of the table at every word finds |
| Terms.LongestIsLongest | crates/xtask/src/terms.rs:391-404 | the form held is the longest that matches, the first in the table among equals |
| Terms.BucketIsEnough | crates/xtask/src/terms.rs:422-425 | trying the forms of a bucket is trying the table |
| Terms.SpansProper | crates/xtask/src/terms.rs:386-420 | matches are in order and share no word |
| Terms.SpansMiss | crates/xtask/src/terms.rs:386-420 | a word in no match begins none |
| Terms.PluralPassedOver | crates/xtask/src/terms.rs:422-466 | for every form of one word: the scan finds the word, and of the word in the plural it finds nothing though the form fits |
| Terms.VertexsIsMissed | crates/xtask/src/terms.rs:422-466 | a table that forbids `vertex` finds nothing in `vertexs` |
| Terms.IndexLosesOnlyPlurals | crates/xtask/src/terms.rs:422-466 | a form whose words are there is tried, unless it is one word met in the plural |
| TermRules.OneWordIff | crates/xtask/src/terms.rs:386-466 | for every form and prose of one word: found in any case, or in just its own when it is its term in another case |
| TermRules.TwoWordsIff | crates/xtask/src/terms.rs:386-466 | for every form and prose of two words: found exactly when spaces, tabs and hyphens are all between them, the first as written and the second as written or in the plural |
| TermRules.WordBytes | crates/xtask/src/terms.rs:694-696 | letters, digits, the underscore and bytes past ASCII make words |
| TermRules.Folding | crates/xtask/src/terms.rs:700-712 | folding takes the 26 capitals to their small letters and leaves the rest |
| Strip.FindRun | crates/xtask/src/terms.rs:655-669 | the first run of exactly that many backticks, or none when there is none |
| Strip.StripLine | crates/xtask/src/terms.rs:593-652 | the loop against the part each byte begins |
| Strip.SpansGo | crates/xtask/src/terms.rs:593-652 | of a line of prose and code spans, every span is one space of what is left and the prose is all there |
| Strip.DestinationGoes | crates/xtask/src/terms.rs:616-627 | a closed parenthesis behind a bracket goes with what is in it, and any other is itself |
| Strip.AutolinkGoes | crates/xtask/src/terms.rs:628-637 | closed angle brackets go when there is a scheme between them, and are themselves otherwise |
| Strip.TicksStay | crates/xtask/src/terms.rs:600-611 | a backtick of a run that nothing closes is itself |

## Left out

- Floating point: `parse_float` and `emit_float` lean on `strtod` and `printf`. A float is its 64 bits, and reading and writing its text are a parameter (`Encoding.Floats`) whose round trip is asked for where it is used.
- Wording of error messages, line numbers in them, and running out of memory. `Show.CvOut.Emit` models a `vsnprintf` that does not fail.
- Arena.Arena.Alloc: whether `malloc` grants memory is a parameter, and the sum of a chunk's header and its capacity is not wrapped, so sizes within a header of 2^64 are taken as `malloc` refusing or granting them whole.
- Show.CvOut.EmitDate: the day count is unbounded where the source holds an `int64_t`, which matters only beyond the counts any value can have.
- Memory of the YAML reader: nodes and lines are values and sequences rather than arena pointers, and the stacks grow without failing. `zy_parse_file` and its file access are not part of this model.
- YamlText.RenderRoundTrip: the renderer quotes with double quotes only; `YamlScan.QuotedReads` is about both styles, one scalar at a time.
- The rustdoc JSON the walk reads, and signatures, doc text and rendered types of entities. An item graph stands for the JSON.
- zstd compression of archives, and UTF-8 repair of names by `from_utf8_lossy`. A name is its bytes.
- Tar.ReadEntries: the source would index past the end of an archive cut short inside a body; the model answers `None` there.
- Sha256.Digest: the length in bits is kept modulo 2^64, as the source's 64-bit product has it without overflow checks; FIPS 180-4 speaks of messages below 2^61 bytes.
- Release.Assemble: file access does not fail, packing the corpus and the platform builds are given bytes, and the hash is a parameter. A directory is a map from names to contents.
- ReleaseCheck.Verify: the digest list is text as given; a list that is not UTF-8, which the source reads as empty, is not modelled.
- Table parsing in `artifacts.rs` and `apimap.rs` beyond the order of ids: what it guarantees is asked for where it is used, one digest row at most and lists in order.
- ApiMap.CheckSurface: what the messages say, and which lines the file has its groups and entries on, are parameters (`ApiMap.Page`).
- Terms.Hits: prose is ASCII; `to_lowercase` of other letters is not modelled.
- `Table::check` of `terms.rs` (exemptions and fences), `census`, `only`, `is_milestone`, and the validation of other tables would add only easy members.
- Bfs.RecursiveBfs: nodes, sources and hops are numbers without a width, and a graph has at most 2^32 - 1 nodes; the number of threads is the one already settled on, below 2^32. The sparse and the dense form of the frontier are the same list.
- LaneBfs.HybridBfs: threads take batches in any order, and what they emit is gathered a batch at a time; the channel between them and its bound are left out.
- Csr.Build: `sort_unstable` is an insertion sort that stands for any.
- WalFrames.TornTxn: CRC-32C is any function of the body to 32 bits, so a collision with the zeros is named and not excluded.
- GroupCommit.QuietRunsPromise: how long a leader pauses, and the counters that decide it, are any choice of pausing or not. That a sync puts on the platter what it covered is taken from the file, and files do not fail otherwise. Which callers cut the log, and when, is not part of this model.
- The query engine's plans, the storage format, the C and ADBC interfaces and the fuzzers: `crates/zu`, the rest of `crates/zu-query` and `crates/zu-zu1`, `crates/zu-adbc`, `conformance/c/runner.c`, `fuzz/`.
