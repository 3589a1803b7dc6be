# Models of the systems-programming exercises

This project models the concurrent protocols and in-place algorithms of the exercises under `sems/` and
proves what they promise, over every interleaving, every input and every size. Sizes such as the number of
processes, the ring's capacity or the length of an array are parameters throughout.

A protocol is a state machine: a `Config` for what is fixed, a `State` with one program counter per process,
`Enabled` and `Apply` for one step (a region under a lock, a send, a receive, a signal), and `RunTo` for a run.
For each there is an invariant that every step keeps, a measure that bounds the length of every run, and a
statement about `Stuck` states, which together say what every run comes to. The loops and classes of the
programs are methods and classes that change their fields as the C code does, tied by their contracts to the
steps of these machines or to specification functions.

| files | program |
|---|---|
| `msgq_bogatyri.dfy`, `msgq_eof_capacity.dfy`, `msgq_eof_count.dfy`, `msgq_process.dfy` | a string printed by handing an index around a typed message queue |
| `rank_consensus.dfy` | agreement on ranks through a locked registry and an exchange sort |
| `socket_ring.dfy`, `socket_process.dfy` | the same printing over TCP connections that may fail |
| `choir_monitor.dfy` | a start barrier and turns on one condition variable |
| `signal_bits.dfy` | bytes sent bit by bit over signals that do not queue |
| `pcat.dfy`, `pcat_conditions.dfy`, `pcat_buffer.dfy` | files copied through a ring buffer, with semaphores and with a monitor |
| `slice_sort.dfy`, `merge_order.dfy`, `merge_sort.dfy` | slices sorted by threads and merged |
| `shell_grammar.dfy`, `shell_lines.dfy`, `shell_printer.dfy`, `shell_parser.dfy` | the shell's incremental parser and drain loop |
| `pipeline.dfy`, `shell_run.dfy` | the descriptors of a pipeline's processes |
| `word_count.dfy` | two streams counted chunk by chunk |
| `sums.dfy` | sums over processes, for the measures |

`dafny verify dfyconfig.toml` checks all of it.

## Where the programs fall short

Each of these is proved with the exact condition under which the program is right.

- The EOF broadcast of the message-queue program does not block, and what is sent to exited processes is
  never taken out. Everybody is told in every run exactly if the queue holds more than (n-2)(p-1) messages;
  for 128 processes 15750 messages are too few, and a default queue holds 2048 (`MsgqEofCapacity`).
- The ring buffer of `pcat` takes a full ring for an empty one, and hands out regions that do not wrap. All
  runs stay inside the storage and copy everything exactly under three conditions on the file sizes
  (`PcatConditions`).
- The merge program leaves a tail of the last slice unsorted when the number of threads does not divide the
  length, as for its own 16 and 5, and drops elements equal to INT_MAX. It sorts exactly if the tail fits and
  there is no INT_MAX (`MergeSort`). `check_sorting` looks at the order only.
- The TCP variant does not repeat a failed EOF connect: exactly those ranks wait for ever (`SocketRing`).
- The signal transfer ends exactly if the first zero byte is the last one (`SignalProtocol`).
- The parser's assertion on a missing tail fails exactly when a read ends just behind a blank line
  (`ShellLines`). The error TOO_LATE_ARGUMENTS is declared and assigned but never returned.
- `input_fd` keeps the number of a closed descriptor after a pipeline. A session is wired rightly exactly if
  at most one of its lines is a pipeline; what every later child gets instead is given too (`Pipeline`).
- Words cut by a chunk boundary are counted twice (`WordCount`).

## Model

| member | source | states |
|---|---|---|
| `MsgqBogatyri.FirstOf` | sems/bogatyri/msgq_bogatyri.c:161-172 | `msgrcv` for one type picks the first queued message of that type, and nothing if there is none |
| `MsgqBogatyri.StepKeepsInv` | sems/bogatyri/msgq_bogatyri.c:191-287 | every receive, print, send and exit of any process keeps the token invariant, before and after the end of the string |
| `MsgqBogatyri.StepLowersMeasure` | sems/bogatyri/msgq_bogatyri.c:191-287 | every step of every process lowers one ranking measure |
| `MsgqBogatyri.OutputIsPrefix` | sems/bogatyri/msgq_bogatyri.c:191-287 | in every interleaving and for every byte string the output is a prefix of the string; a process leaves its loop, and an EOF message exists, only when all of it is printed; the queue never exceeds its limit |
| `MsgqBogatyri.TokenIsUnique` | sems/bogatyri/msgq_bogatyri.c:191-260 | for every byte string, until somebody leaves the loop, exactly one process or exactly one queued message holds the index of the next character, addressed to its owner even if that is nobody; all other indices point at foreign characters. Only if the first byte is nobody's rank does no one hold it and the queue stays empty |
| `MsgqBogatyri.EveryRunIsBounded` | sems/bogatyri/msgq_bogatyri.c:191-287 | no run has more than 8·length + n·(2n+2) steps |
| `MsgqBogatyri.StuckOutput` | sems/bogatyri/msgq_bogatyri.c:191-287 | a run that can go no further has printed the string up to its first byte that is nobody's rank; if there is such a byte at k nobody leaves the loop and the queue holds exactly the message for its type with index k, or nothing if k is 0; if there is none only EOF messages are left |
| `MsgqEofCapacity.LargeQueueTellsAll` | sems/bogatyri/msgq_bogatyri.c:174-189 | if the queue holds more than (n-2)(p-1) messages, p the highest rank but for the one that finishes, every run that can go no further has all processes exited |
| `MsgqEofCapacity.SmallQueueCanStrand` | sems/bogatyri/msgq_bogatyri.c:174-189 | for every smaller queue there is a run after which a process waits for ever |
| `MsgqEofCapacity.EveryoneIsToldExactlyAboveLimit` | sems/bogatyri/msgq_bogatyri.c:174-287 | all processes exit in every run that can go no further, if and only if the queue holds more than (n-2)(p-1) messages |
| `MsgqEofCapacity.DefaultQueueIsTooSmall` | sems/bogatyri/msgq_bogatyri.c:174-287 | with 128 processes this fails for every printable string and every queue of up to 15750 messages; a default queue of 16384 bytes holds 2048, or 4096 where long takes 4 bytes |
| `MsgqEofCount.EofsAreConserved` | sems/bogatyri/msgq_bogatyri.c:174-287 | for every text, the empty one included, as long as no broadcast meets a full queue: the EOF messages for a rank, queued or taken, are as many as the other processes that have passed it in their broadcast; once all have left, n-1 are queued for the rank that took none and n-2 for each other |
| `MsgqProcess.MessageQueue.SendNoWait` | sems/bogatyri/msgq_bogatyri.c:174-189 | a non-blocking send appends the message, or reports a full queue and changes nothing |
| `MsgqProcess.MessageQueue.Receive` | sems/bogatyri/msgq_bogatyri.c:161-172 | a receive takes out the first message of the type and keeps the order of the others |
| `MsgqProcess.BroadcastEofToAll` | sems/bogatyri/msgq_bogatyri.c:174-189 | the broadcast loop is a run of n steps of the system; it appends EOF messages only, to ranks other than its own |
| `MsgqProcess.ProcessMyCharactersSequence` | sems/bogatyri/msgq_bogatyri.c:191-211 | the printing loop prints the longest stretch of own characters and is a run of the system |
| `ExchangeSort.SortSegment` | sems/bogatyri/msgq_bogatyri.c:106-117 | the exchange sort sorts a segment in place, keeps its values and touches nothing else |
| `ExchangeSort.SortedIsUnique` | sems/bogatyri/msgq_bogatyri.c:106-117 | two sorted arrangements of the same values are equal |
| `RankConsensus.SortPids` | sems/bogatyri/msgq_bogatyri.c:106-117 | the first `count` pids are sorted in place, the values kept |
| `RankConsensus.FindMyRank` | sems/bogatyri/msgq_bogatyri.c:119-129 | the first position of the own pid, or the length exactly if it is not there, where the program exits |
| `RankConsensus.RankIn` | sems/bogatyri/msgq_bogatyri.c:131-146 | read, sort and look up: the rank is the number of smaller pids |
| `RankConsensus.PositionCountsSmaller` | sems/bogatyri/msgq_bogatyri.c:106-129 | in any sorted arrangement of distinct pids a position is the number of smaller pids |
| `RankConsensus.RanksAgree` | sems/bogatyri/msgq_bogatyri.c:37-146 | in every interleaving of registering, polling and reading nobody takes an error exit and every rank is the number of smaller pids |
| `RankConsensus.NobodyIsLeftWaiting` | sems/bogatyri/msgq_bogatyri.c:61-87 | the wait ends for everybody: where no move changes anything, all have a rank |
| `RankConsensus.AtMostThreeMovesEach` | sems/bogatyri/msgq_bogatyri.c:37-146 | in any run no more than three moves for each process change anything: registering, the end of its wait, and reading |
| `RankConsensus.RanksAreABijection` | sems/bogatyri/msgq_bogatyri.c:37-146 | the ranks of distinct pids are 0..n-1, each taken exactly once |
| `SocketRing.TokenSurvivesFailures` | sems/bogatyri/sockets2.c:226-316 | with any pattern of failed connects the right to go on is with one active process or in one message, never both and never lost; output is a prefix of the string, and nobody finishes early |
| `SocketRing.StepLowersMeasure` | sems/bogatyri/sockets2.c:226-316 | every step but a failed connect lowers the measure |
| `SocketRing.EveryRunIsBounded` | sems/bogatyri/sockets2.c:226-316 | a run with k failed connects has at most a fixed number of steps plus k |
| `SocketRing.StuckOutput` | sems/bogatyri/sockets2.c:226-316 | where nothing can move any more the whole string is printed, and the processes left waiting are exactly those whose EOF connect failed |
| `SocketProcess.Network.Send` | sems/bogatyri/sockets2.c:188-207 | a successful connect delivers its message at the end of the rank's inbox, a failed one changes nothing |
| `SocketProcess.Network.constructor` | sems/bogatyri/sockets2.c:218-222 | empty inboxes, as in the initial state of the system |
| `SocketProcess.RingProcess.constructor` | sems/bogatyri/sockets2.c:228-235 | rank 0 is active at index 0, the others are not, as in the initial state of the system |
| `SocketProcess.RingProcess.ActiveRound` | sems/bogatyri/sockets2.c:250-288 | one active round of the event loop is one or two steps of the system; the process becomes inactive exactly if it handed the index over |
| `SocketProcess.RingProcess.TellEof` | sems/bogatyri/sockets2.c:229-244 | the EOF loop is a run of the system that tells every other rank once and records the failed connects |
| `SocketProcess.RingProcess.PassiveRound` | sems/bogatyri/sockets2.c:289-309 | an inactive round takes the first waiting message: EOF ends the loop, an index activates |
| `ChoirMonitor.ChoirIsSafe` | sems/bogatyri/main.c:64-119 | in every interleaving with spurious wakeups: numbers are distinct, nobody sings or leaves before all are registered, what is sung is the text up to one behind the reading position, and an exit implies that all of it was sung |
| `ChoirMonitor.SleepersHaveAReason` | sems/bogatyri/main.c:87-116 | a sleeper at the barrier means that threads are missing; a sleeper in the song means that the current character is another one's and not the end |
| `ChoirMonitor.ReadNextStaysInRange` | sems/bogatyri/main.c:49-61 | `read_next_char` never takes its out-of-range branch |
| `ChoirMonitor.StuckOutput` | sems/bogatyri/main.c:87-119 | without spurious wakeups nothing can move only when the text is sung up to its first foreign character; all have left exactly if there is none |
| `ChoirMonitor.EveryRunIsBounded` | sems/bogatyri/main.c:64-119 | a run with k spurious wakeups has at most a fixed number of steps plus 2k |
| `ChoirMonitor.Monitor.constructor` | sems/bogatyri/main.c:24-36 | the fields as initialised are the initial shared state of the system |
| `ChoirMonitor.Monitor.ReadNextChar` | sems/bogatyri/main.c:49-61 | takes the next character and moves the position on by one; out of range sets the end character, returns -1 and moves nothing; both as the reading function of the system |
| `ChoirMonitor.Monitor.AcquireThreadNumber` | sems/bogatyri/main.c:64-77 | hands out the next number, wrap-around of the unsigned counter included; exactly the last registration broadcasts and reads the next character |
| `ChoirMonitor.Monitor.TakeTurn` | sems/bogatyri/main.c:94-116 | one look at the current character: leave exactly at the end character, sing exactly the own one and read on, else sleep, as the system's step says |
| `ByteBits.WholeByte` | sems/signals/main.c:64-71 | eight bits, least significant first, put together again are the byte modulo 256, for negative chars too |
| `ByteBits.SendByte` | sems/signals/main.c:114-119 | the shifting loop sends v mod 2, v/2 mod 2, and so on up to v/128 mod 2 |
| `ByteBits.ReceiveByte` | sems/signals/main.c:64-71 | the summing loop gives the first bit, twice the second, and so on up to 128 times the eighth |
| `SignalProtocol.BitIsSent` | sems/signals/main.c:105-127 | bit p of the message is bit p mod 8 of its byte p/8, counted from the least significant |
| `SignalProtocol.NoBitIsLost` | sems/signals/main.c:45-127 | in every interleaving at most one signal is pending, and it is the one for the last bit sent; the received bits are the sent bits but for at most one, and no signal is delivered but to a process in sigsuspend, so that an early one neither kills the child nor overwrites the bit about to be returned |
| `SignalProtocol.OnlySuspendedHear` | sems/signals/main.c:136-143 | what the masks let through: data signals only to the suspended child, and the acknowledgement, the same signal as a zero bit, only to the suspended parent |
| `SignalProtocol.ChildMaskIsNeeded` | sems/signals/main.c:74-143 | had the child started with its signals open, for every message some run would kill it, exactly if the first bit is 1, or lose that bit, and both would get no further |
| `SignalProtocol.ParentMaskIsNeeded` | sems/signals/main.c:105-143 | had the parent its signals open while sending, for every message some run would lose the first acknowledgement and both would wait for ever |
| `SignalProtocol.StuckOutput` | sems/signals/main.c:74-127 | where nothing can move the child has printed the bytes before the first zero and has exited exactly if there is one; a finished transfer took 16 signals per byte |
| `SignalProtocol.FinishesExactlyIfTerminated` | sems/signals/main.c:74-127 | both sides finish in every run if and only if the first zero byte is the last byte of the message |
| `SignalProtocol.RunOn` | sems/signals/main.c:74-127 | from every reachable state some run goes on to the end |
| `SignalProtocol.EveryRunIsBounded` | sems/signals/main.c:45-127 | no run has more than 56 steps per byte and three |
| `RingArithmetic.RecomputedIsExact` | sems/pcat/on_semaphors/pcat.c:75-90 | the size recomputed from start and end is exact unless the ring is completely full, and then it is 0 |
| `RingArithmetic.RecomputedForgetsRounds` | sems/pcat/on_semaphors/pcat.c:75-90 | however far start and end are apart in the stream, the recomputed size leaves out whole rounds of the ring |
| `RingContents.ContentsAreTheStream` | sems/pcat/on_semaphors/pcat.c:92-160 | the cells from start on, around the end of the storage, are the stream bytes written and not yet read |
| `Pcat.RingIsAQueue` | sems/pcat/on_semaphors/pcat.c:75-160 | under the size conditions, in every interleaving: size is exact, the ring holds exactly the bytes written and not read, output is a prefix of the files |
| `Pcat.RegionsAreDisjoint` | sems/pcat/on_semaphors/pcat.c:106-153 | the cells that reader and writer touch outside the lock never coincide and are inside the storage |
| `Pcat.StepRefinesQueue` | sems/pcat/on_monitors/pcat.c:126-200 | every step leaves the abstract queue alone, appends one whole file, or takes one off |
| `Pcat.StepLowersMeasure` | sems/pcat/on_monitors/pcat.c:126-200 | every step lowers the measure, a spurious wakeup raises it by at most one |
| `Pcat.EveryRunIsBounded` | sems/pcat/on_monitors/pcat.c:126-247 | a run with k spurious wakeups has at most a fixed number of steps plus 2k |
| `Pcat.SemaphoresCount` | sems/pcat/on_semaphors/pcat.c:92-153 | for files of any sizes and every run: `full` is its initial value plus the files read less the waits the writer got past, `empty` is the files written less the waits the reader got past |
| `Pcat.WriterWakesExactlyAfterARead` | sems/pcat/on_monitors/pcat.c:126-200 | for files of any sizes: a writer asleep on its condition variable can go on, without a spurious wakeup, exactly if the reader has finished a file since it fell asleep; earlier signals are lost |
| `Pcat.ReaderWakesExactlyAfterAWrite` | sems/pcat/on_monitors/pcat.c:126-200 | the same for the reader and files that the writer has finished |
| `Pcat.StuckMeansComplete` | sems/pcat/on_semaphors/pcat.c:92-153 | no wakeup is lost, whatever the initial value of `full`: where nothing can move, all files are copied |
| `PcatConditions.HardFileGoesWrong` | sems/pcat/on_semaphors/pcat.c:127-153 | the first file that wraps, fills the ring or does not fit makes some run go wrong |
| `PcatConditions.LostMeansIncomplete` | sems/pcat/on_semaphors/pcat.c:75-160 | once a block has filled the ring, a whole round of it is never taken for written again: going on from there stops with files missing |
| `PcatConditions.ViolationGoesWrong` | sems/pcat/on_semaphors/pcat.c:75-160 | if the file sizes violate a condition there is a run that is about to leave the storage, or stops with files missing |
| `PcatConditions.ConditionsSuffice` | sems/pcat/on_semaphors/pcat.c:75-160 | under the conditions every run stays inside the storage, writes a prefix of the files and can only stop complete |
| `PcatConditions.CorrectExactlyUnderConditions` | sems/pcat/on_semaphors/pcat.c:75-387 | all runs of both versions stay inside the storage, write a prefix of the files and stop only with all files copied, if and only if no block of consecutive files is as long as the ring, no file wraps and none is longer than the ring |
| `PcatBuffer.Buffer.constructor` | sems/pcat/on_monitors/pcat.c:99-107 | the buffer as initialised is the initial state of the ring |
| `PcatBuffer.Buffer.UpdBufferSize` | sems/pcat/on_monitors/pcat.c:74-81 | size becomes the distance below the capacity by which start has to move to reach end |
| `PcatBuffer.Buffer.ShiftStartByK` | sems/pcat/on_monitors/pcat.c:116-118 | start moves on by n around the ring, nothing else changes |
| `PcatBuffer.Buffer.ShiftEndByK` | sems/pcat/on_monitors/pcat.c:120-122 | end moves on by n around the ring, nothing else changes |
| `PcatBuffer.Buffer.SafeRead` | sems/pcat/on_monitors/pcat.c:55-72 | reads that each deliver any part of what is left add up to the whole file in its region; the rest of the storage is kept |
| `PcatBuffer.Buffer.BufWrite` | sems/pcat/on_monitors/pcat.c:165-200 | with room in the ring, writing a file into it is a run of the writer in the system |
| `PcatBuffer.Buffer.BufRead` | sems/pcat/on_monitors/pcat.c:126-162 | with n bytes in the ring, reading them is a run of the reader in the system and gives the bytes from start on |
| `SliceSort.ComparatorOrdersExactlyInRange` | sems/mergesort/mergesort.c:43-45 | the difference as a wrapping int is the difference, and orders two ints rightly, if and only if it fits into an int; every comparison of the slice sorts relies on it |
| `SliceSort.SortSubarray` | sems/mergesort/mergesort.c:71-95 | thread i, alone, sorts its slice with the comparator, if that can order the slice, and touches nothing else |
| `SliceSort.ThreadsSortTheirSlices` | sems/mergesort/mergesort.c:71-95 | in every interleaving of the single comparisons and exchanges of all threads, each slice ends with its own values, sorted, and the tail is untouched |
| `SliceSort.SegmentStep` | sems/mergesort/mergesort.c:71-95 | one comparison with the comparator, and the exchange it may bring, keeps the values of the slice, the rest of the array and the order reached so far |
| `SliceSort.EveryRunIsBounded` | sems/mergesort/mergesort.c:71-95 | no run of n threads on slices of k elements has more than n(k(k+3)+1) steps |
| `SliceSort.RunThreads` | sems/mergesort/mergesort.c:176-208 | from start to join of the threads, whichever is the next to compare each time: the array changes by a run of the system and ends sliced |
| `MergeSort.FindMin` | sems/mergesort/mergesort.c:97-124 | the first slice that shows the least current element, or n exactly if no slice shows one below INT_MAX |
| `MergeSort.Take` | sems/mergesort/mergesort.c:126-155 | one element goes from the front of its slice to the end of the output |
| `MergeSort.MergeRound` | sems/mergesort/mergesort.c:126-155 | a round of the merge loop, for slices sorted or not: the first slice that shows the least current element gives it to the output, or no slice shows one below INT_MAX and nothing changes |
| `MergeSort.Merge` | sems/mergesort/mergesort.c:126-155 | for any array, slices sorted or not: each cell of the output is the least element shown at that moment, taken from the first slice that shows it, up to where the output is full or only INT_MAX is shown; and so the filled prefix is exactly the elements below INT_MAX in order if and only if the slices are sorted, and complete if there is no INT_MAX |
| `MergeOrder.MergeIsDetermined` | sems/mergesort/mergesort.c:97-155 | that description of merge leaves no freedom: for any array and number of slices there is at most one output and one sequence of chosen slices |
| `MergeOrder.AlongTheChoices` | sems/mergesort/mergesort.c:97-155 | what holds of the slice starts and the empty output, and is kept by taking a first least element, holds after any number of rounds |
| `MergeSort.MergedByMeansMerged` | sems/mergesort/mergesort.c:126-155 | the choices of merge alone imply what it promises about values and order: no INT_MAX, nothing invented, and in order and complete below INT_MAX if and only if the slices are sorted |
| `MergeSort.InOrderMeansSortedSlices` | sems/mergesort/mergesort.c:126-155 | if the output is in order and only INT_MAX is left in the slices, every slice was sorted |
| `MergeSort.MergeAfterThreads` | sems/mergesort/mergesort.c:126-208 | after any given run of the threads: the output is the merge of the slices as they are then, choice by choice, and the same two equivalences hold |
| `MergeSort.ParallelSort` | sems/mergesort/mergesort.c:71-208 | for every length and number of threads and every interleaving: everything is output if and only if no element is INT_MAX; the output is a sorted permutation if and only if the unsorted tail of the last slice fits and no element is INT_MAX; it is exactly the elements below INT_MAX in order if and only if the tail fits, which it does if n divides the length |
| `MergeSort.ShippedSizesLeaveATail` | sems/mergesort/mergesort.c:176-208 | with 16 elements and 5 threads the last element must not be below the three before it |
| `MergeSort.CheckSorting` | sems/mergesort/mergesort.c:157-174 | the check, with its copy sorted by the comparator, fails exactly for an array that is not sorted |
| `ShellGrammar.TokenIsStable` | sems/4week/myshell/src/parser.c:160-195 | a token that is complete stays the same when more bytes follow |
| `ShellGrammar.ParseUses` | sems/4week/myshell/src/parser.c:197-294 | a pop that gives a line or an error takes at least one byte, up to the end of a line, and never reports TOO_LATE_ARGUMENTS |
| `ShellGrammar.ParseIsStable` | sems/4week/myshell/src/parser.c:197-294 | a line or error that can be popped is not changed by further input, which stays buffered |
| `ShellGrammar.DrainInTwoSteps` | sems/4week/myshell/src/main.c:18-38 | draining, feeding more and draining again sees what draining everything at once sees |
| `ShellGrammar.ChunksDoNotMatter` | sems/4week/myshell/src/main.c:18-38 | the sequence of lines and errors, and the bytes left, do not depend on how the input is cut into reads |
| `ShellLines.TokenIsSpelled` | sems/4week/myshell/src/parser.c:160-195 | a token that was read stands in the bytes as some spaces, its text and the rest |
| `ShellLines.SpelledIsToken` | sems/4week/myshell/src/parser.c:160-195 | some spaces, a word or mark and a fitting rest are read as that token |
| `ShellLines.AbortsExactlyOnBlanks` | sems/4week/myshell/src/parser.c:250-254 | the assertion on a missing tail fails exactly on a buffer that holds blank lines and nothing else |
| `ShellLines.PopTakesALine` | sems/4week/myshell/src/parser.c:197-294 | a pop that gives a line or an error takes up to the end of a line that is not blank |
| `ShellLines.ParseWaits` | sems/4week/myshell/src/parser.c:197-294 | nothing is popped only from a buffer that ends inside a line |
| `ShellLines.AbortsExactlyAfterABlankLine` | sems/4week/myshell/src/main.c:21-37 | the drain loop runs into that assertion if and only if the buffer ends with a blank line |
| `ShellLines.SessionAbortsExactlyAfterABlankLine` | sems/4week/myshell/src/main.c:18-38 | over any reads the shell dies in the parser if and only if some read ends just behind a blank line |
| `ShellPrinter.PrintedIsPopped` | sems/4week/myshell/src/parser.c:197-294 | a pipeline printed with blank lines before it and any spacing that keeps words apart is popped as that pipeline, and what follows stays buffered |
| `ShellPrinter.PopsExactlyPrintedLines` | sems/4week/myshell/src/parser.c:197-294 | a line is popped if and only if the bytes are that line, printed in some layout, and the rest |
| `ShellPrinter.FaultyLineIsReported` | sems/4week/myshell/src/parser.c:250-293 | a line that begins with a pipe, in which two pipes meet, or that ends in a pipe is taken whole and reported with the matching error |
| `ShellPrinter.PrintedAreDrained` | sems/4week/myshell/src/main.c:21-37 | draining printed pipelines gives exactly these and leaves nothing |
| `ShellPrinter.PrintedArriveInChunks` | sems/4week/myshell/src/main.c:18-38 | the same for printed pipelines that arrive in any reads, unless a read ends behind a blank line |
| `ShellParser.TokenBuffer.Append` | sems/4week/myshell/src/parser.c:54-64 | the character is appended; a full buffer grows to 2·(capacity+1) |
| `ShellParser.CommandLine.Append` | sems/4week/myshell/src/parser.c:104-112 | the expression becomes the last of the list, which stays free of cycles |
| `ShellParser.CommandLine.AppendArg` | sems/4week/myshell/src/parser.c:73-83 | the word becomes the last argument of the last command, nothing else changes |
| `ShellParser.CommandLine.Walk` | sems/4week/myshell/src/myshell.c:88-98 | following the links from the head meets every expression once, in order, and ends |
| `ShellParser.Parser.Feed` | sems/4week/myshell/src/parser.c:120-134 | the bytes are appended; capacity is kept if they fit, else doubled, or else set to what is needed |
| `ShellParser.Parser.Consume` | sems/4week/myshell/src/parser.c:136-146 | the first n bytes are dropped, the others move to the front |
| `ShellParser.Parser.ParseToken` | sems/4week/myshell/src/parser.c:160-195 | the loops over the buffer give the token the grammar gives, and the bytes it takes |
| `ShellParser.Parser.SkipRest` | sems/4week/myshell/src/parser.c:271-287 | skips to the end of a faulty line, or leaves the buffer alone if the end is not there yet |
| `ShellParser.Parser.PopNext` | sems/4week/myshell/src/parser.c:197-294 | the loop over tokens and the linked list deliver the line, error or nothing that the grammar pops, with a valid list and the right bytes left |
| `ShellParser.Drain` | sems/4week/myshell/src/main.c:21-37 | the loop ends and sees exactly the drained lines and errors |
| `ShellParser.Session` | sems/4week/myshell/src/main.c:18-38 | over any number of reads, if what is buffered at a time stays below 2^30 bytes, no 32-bit size overflows and the events are those of the whole input |
| `Pipeline.PipelineIsWired` | sems/4week/myshell/src/myshell.c:25-98 | from input_fd at stdin, child i reaches exec with descriptors 0, 1 and 2 only, 0 on the pipe before it and 1 on the pipe behind it; the shell has its own descriptors again, and input_fd is 0 after one command, else 3 or 4 by the number of pipes |
| `Pipeline.LineRuns` | sems/4week/myshell/src/myshell.c:30-98 | for every line, with input_fd at 0, at a stale 3 or at a stale 4: the table of every child and the shell afterwards, given outright |
| `Pipeline.PipelineFromStaleThree` | sems/4week/myshell/src/myshell.c:30-98 | with input_fd at a stale 3 each child but the last reads the very pipe it writes, the last one has the terminal, and input_fd stays 3, since the new read end gets that number and is closed |
| `Pipeline.PipelineFromStaleFour` | sems/4week/myshell/src/myshell.c:30-98 | with input_fd at a stale 4 the first child of a pipeline has the write end of the first pipe as descriptor 0 and the terminal as 1; the others are wired rightly |
| `Pipeline.OnlyOneWriter` | sems/4week/myshell/src/myshell.c:30-70 | only child i holds the write end of pipe i, as descriptor 1, and the shell does not |
| `Pipeline.PipeTakesTheLowest` | sems/4week/myshell/src/myshell.c:34-39 | a pipe gets the two lowest free descriptors, the lower one for reading, and changes no other |
| `Pipeline.AtMostThreeExtra` | sems/4week/myshell/src/myshell.c:30-70 | the shell never has more than three descriptors beyond 0, 1 and 2, whatever input_fd was left at |
| `Pipeline.NextLineIsWiredExactlyIfSingle` | sems/4week/myshell/src/myshell.c:30-70 | input_fd stays at a closed descriptor after a pipeline: the next line is wired rightly if and only if it is a single command |
| `Pipeline.SessionIsWiredExactlyUpToOnePipeline` | sems/4week/myshell/src/myshell.c:30-98 | over a session of any lines every child of every line is wired if and only if at most one line has more than one command |
| `Pipeline.ChildrenInSession` | sems/4week/myshell/src/myshell.c:30-98 | the tables of all children of all lines of any session, also of the lines that are not wired rightly |
| `ShellRun.PoppedLineIsWired` | sems/4week/myshell/src/myshell.c:88-98 | every line that the parser pops is wired so |
| `ShellRun.ShellProcess.ExecuteCmd` | sems/4week/myshell/src/myshell.c:30-70 | the calls of the parent and of the child change the descriptors as the wiring function says, whose tables `Pipeline.LineRuns` gives outright |
| `ShellRun.ShellProcess.ExecuteCommandLine` | sems/4week/myshell/src/myshell.c:88-98 | the walk along the list starts the children in order, with the tables that `Pipeline.LineRuns` gives for every value input_fd can have |
| `WordCount.WordsOfConcat` | sems/wc/wc.c:61-106 | the words of two texts are those of their concatenation, and one more if the seam cuts a word |
| `WordCount.WordsAreStarts` | sems/wc/wc.c:61-106 | the words of a text are the positions that hold none of the six space characters and follow one of them or nothing |
| `WordCount.LinesAreNewLines` | sems/wc/wc.c:61-106 | the lines of a text are its newline characters |
| `WordCount.CutsCountTwice` | sems/wc/wc.c:61-106 | counted chunk by chunk, a stream has the words of its whole text and one more for each boundary with a non-space on both sides |
| `WordCount.CountIsRightExactlyWithoutCuts` | sems/wc/wc.c:61-106 | the words counted are those of the whole text if and only if no boundary cuts a word |
| `WordCount.Context.Count` | sems/wc/wc.c:61-106 | one read adds the number of its bytes, of its newlines and of its positions that begin a word, or nothing at the end or on an error |
| `WordCount.CountBoth` | sems/wc/wc.c:188-206 | for any interleaving and chunking of the two streams, bytes are the length and lines the newlines of each whole stream, words its positions that begin a word plus the cuts; the loop ends exactly when each of the two streams has ended |

## Left out

- Relay races (`sems/5week`): a runner can take back its own message, so there is no order to prove.
- `sems/2week`, `sems/3week`, `sems/myls`, `sems/symlinks_recursive`: fork demonstrations, copying and directory listing.
- Set-up and clean-up of shared memory, semaphores, sockets, epoll, files and timing, and the exchange of pids over TCP; the ranks of `sockets2.c` are taken as agreed.
- Failing allocation, fork, thread creation, pipe and message-queue calls; fairness of the scheduler and the time spent polling.
- A region under a lock is one step; that mutexes exclude each other is taken for granted.
- Read errors, EINTR and files that shrink during `pcat`: a file yields the number of bytes it had at the start, in parts of any size.
- Pcat.StuckMeansComplete: requires the three conditions on file sizes, without which it is false (PcatConditions.CorrectExactlyUnderConditions).
- Choir texts contain no zero byte; a character above every thread number stops the song, as `ChoirMonitor.StuckOutput` says.
- SliceSort.SortSubarray: the library sort is represented by an exchange sort with the program's comparator; a slice with differences that do not fit into an int, where the C program is undefined, is left out.
- PcatBuffer.Buffer.BufWrite: the call that finds room at once; the waiting loop is in the steps of `Pcat`.
- PcatBuffer.Buffer.BufRead: the call that finds its bytes at once; the waiting loop is in the steps of `Pcat`.
- ShellParser.Parser.PopNext: buffers that end in a space or a carriage return, where the C code looks at bytes behind the buffered ones, and buffers of blank lines alone, where its assertion fails.
- ShellPrinter.PopsExactlyPrintedLines: inputs with carriage returns, each of which takes the byte behind it along.
- ShellParser.CommandLine.AppendArg: the growth of the argument array and the terminator that `execvp` needs are not modelled; NUL bytes inside words are ordinary bytes.
- ShellParser.Session: inputs on which the parser's assertion fails, and the execution of the lines between pops, which does not touch the parser.
- SignalProtocol.StuckOutput: the newline that the child prints last is represented by its exit alone.
- The children of a pipeline after exec, and waiting for them.
- Debug output, also where it reads state.
