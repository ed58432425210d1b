# Fragmented I/O exercises: a verified model

A Dafny model of the CTester library that runs networking exercises in a sandbox, of the sum-of-ints programs that
run inside it, and of the scripts that grade them.

- `TimedStream.dfy`, `RealTime.dfy`: the simulator of fragmented reads as functions of a cursor, what every sequence of
  calls delivers, and the flat queue of timed bytes that REAL mode implements.
- `ReadWrite.dfy`, `FdTable.dfy`: the same simulator in memory: cursors updated in place, the copying loop, the table of
  descriptors with its scans, shifts and growth.
- `FailureMask.dfy`, `Sandbox.dfy`: the failure masks, and the monitored system calls on top of them.
- `ByteOrder.dfy`, `SumOfInts.dfy`, `TcpPair.dfy`, `TwoParty.dfy`, `UdpPair.dfy`: the protocol, the TCP programs under
  arbitrary failure schedules, the two programs as processes over bounded channels, and the UDP programs.
- `Wrappers.dfy`: optional values.
- `WrapMalloc.dfy`, `NetworkDns.dfy`, `MockPeer.dfy`: allocation accounting, the list of addrinfo results, the mock peer.
- `Text.dfy`, `TestMetadata.dfy`, `Records.dfy`, `Grading.dfy`: from the messages of a test to its line in results.txt,
  back from the file to results, and to a grade.
- `BgpChecker.dfy`: the answers that the BGP exercises accept.

The clock, the overshoot of sleeps, the bytes that a real send accepts, failures of real calls and the results of polls
are arbitrary: parameters, or values chosen nondeterministically. Arithmetic is unbounded except where the code depends
on its width: 32-bit masks, 32-bit words and their sum, the conversions of sizes and weights to int.

Where the code and its documentation differ, the model follows the code:

- `read_write.h` (lines 124-126) counts the AFTER interval from the end of the call that emptied a chunk; the code counts
  it from the start of the last call, or from its wake-up if it slept. Hence `PollingStarves`, and the
  input of `PollingEveryNineStarves`.
- `read_write.h` (lines 137-138) gives the AFTER and BEFORE intervals in microseconds; the code uses milliseconds.
- `wrap.h` (lines 98-101) says that the failure information is shifted at every call; free shifts it only when it fails.
  Hence `FreeMaskMeaning`, the exact condition in `FreeFollowsSchedule`, and the input of `FreeIgnoresFailSecond`.
- `util_sockets.c` (lines 465-467) promises 0 on success; `handle_tcp_transaction` returns 0 and writes `_OK` also after
  chunks that went wrong. Hence `HandleTransaction`, and the input of `OkAfterTooFew`.

Behaviour that no documentation mentions:

- free subtracts the size of a block from the running total even when its failure is injected and the block stays.
  Hence `StepMatches`, and the inputs of `InjectedFreeBreaks` and `InjectedFreeRun`.
- A tag of 30 characters or more is cut and has no terminator. Hence `PrintedExactly`, and the input of `FullTagRunsOn`.
- An unsigned weight is printed with `%d`. Hence `WeightSurvives`.

Assumptions, stated as preconditions where they are needed: the programs run with injected results of recv, send and
close that look like errors (-1; accept may be injected to return a descriptor), and the peer has the bytes that they
wait for; the host is little-endian; fewer than 2^32 integers; a malloc total below 2^31.

## Model

| member | source | states |
|---|---|---|
| `RealTime.RealReadRefinesQueue` | sum_of_ints_tcp1/student/CTester/read_write.c:185-244 | a REAL read, in its result and in what it leaves behind, is a read of one flat queue of bytes with release times; for any chunks (empty ones are items without a byte), clock, length, blocking or not, and any overshoot of a sleep |
| `RealTime.DrainIsTake` | sum_of_ints_tcp1/student/CTester/read_write.c:218-243 | the chunk-crossing loop pops released bytes one by one while there is room, and stops exactly at the first byte that is not released |
| `RealTime.BlockingReadReturnsReleased` | sum_of_ints_tcp1/student/CTester/read_write.c:193-244 | a REAL read is refused iff it must not block and the next item is not released; otherwise it returns min(len, bytes available at the call time, or at the wake-up if it slept) bytes, which are all the released ones when no interval is negative |
| `RealTime.EmptyRead` | sum_of_ints_tcp1/student/CTester/read_write.c:218-243 | a REAL read with room returns 0 iff no byte is available, which before the end of the stream takes an empty chunk |
| `RealTime.ScheduleNeverDrifts` | sum_of_ints_tcp1/student/CTester/read_write.c:185-262 | after any calls last_time + interval is the scheduled release time of the current chunk, and what is queued is the original schedule without what was passed, both moved only by the overshoot of sleeps; polling never postpones data |
| `RealTime.ReleaseTimeInNanoseconds` | sum_of_ints_tcp1/student/CTester/read_write.c:230-240 | chunk k is scheduled 1 000 000 times the sum of the intervals 0 to k after the registration |
| `RealTime.PollFailsIffNotReleased` | sum_of_ints_tcp1/student/CTester/read_write.c:199-204 | after any calls, a MSG_DONTWAIT read fails iff the next item of the original schedule, moved by the overshoot of the sleeps so far, is not released; it then moves no cursor |
| `RealTime.PollWithExactSleeps` | sum_of_ints_tcp1/student/CTester/read_write.c:199-204 | with exact sleeps: iff the next item of the original schedule is not released |
| `RealTime.PollFailsInNanoseconds` | sum_of_ints_tcp1/student/CTester/read_write.c:193-240 | after any calls, a poll in front of or inside chunk k fails iff 1 000 000 times the sum of the intervals 0 to k, and the overshoot of the sleeps, are not over since the registration |
| `TimedStream.ReadConserves` | sum_of_ints_tcp1/student/CTester/read_write.c:150-272 | in every mode a call hands over exactly the next bytes of the glued chunks and the cursor keeps exactly the others |
| `TimedStream.StreamConservation` | sum_of_ints_tcp1/student/CTester/read_write.c:246-346 | over any calls from a registration on, the results together are the prefix of the glued chunks of the length that get_bytes_read reports |
| `TimedStream.BytesReadIsPosition` | sum_of_ints_tcp1/student/CTester/read_write.c:332-346 | what get_bytes_read reports is the position in the glued chunks: exactly the undelivered bytes follow it |
| `TimedStream.ReadMakesProgress` | sum_of_ints_tcp1/student/CTester/read_write.c:174-182 | without empty chunks, a read with room returns 0 only when everything was delivered |
| `TimedStream.ReadAdvances` | sum_of_ints_tcp1/student/CTester/read_write.c:150-244 | in every mode a read with room that is not refused gets bytes or past an empty chunk, unless nothing is left |
| `TimedStream.RefusalMovesNothing` | sum_of_ints_tcp1/student/CTester/read_write.c:161-165 | a refused call moves no cursor, and a blocking call on a known mode is never refused |
| `TimedStream.ChunkModesMeetDeadline` | sum_of_ints_tcp1/student/CTester/read_write.c:150-183 | BEFORE and AFTER reads deliver at most one chunk, its start only at its deadline, counted from this call or from the last one |
| `TimedStream.FirstPoll` | sum_of_ints_tcp1/student/CTester/read_write.c:150-328 | a first poll t nanoseconds after the registration is refused iff t < 1 000 000 * interval in modes 1 and 2, and iff the interval is positive in mode 3; other modes are errors |
| `TimedStream.PollingStarves` | sum_of_ints_tcp1/student/CTester/read_write.c:155-165 | in AFTER mode, polls with room get nothing of the next chunk iff each comes within its interval of the call before it |
| `TimedStream.PollingBeforeStarves` | sum_of_ints_tcp1/student/CTester/read_write.c:155-165 | in BEFORE mode, polls with room get nothing of the next chunk iff its interval is positive |
| `TimedStream.PollingEveryNineStarves` | sum_of_ints_tcp1/student/CTester/read_write.c:155-165 | the input: with an interval of 10 ms, any number of polls 9 ms apart gets nothing |
| `TimedStream.EmptyReadInChunkModes` | sum_of_ints_tcp1/student/CTester/read_write.c:174-182 | a BEFORE or AFTER read with room returns 0 iff nothing is left or the current chunk is empty |
| `ReadWrite.ReadItem.HandleBufferRt` | sum_of_ints_tcp1/student/CTester/read_write.c:185-244 | the in-place REAL read, with the bytes it stores in the caller's memory, computes the modelled read |
| `ReadWrite.ReadItem.DrainChunks` | sum_of_ints_tcp1/student/CTester/read_write.c:218-243 | the copying loop: its index stays at the current chunk until the room is used up, and it stores what it takes, in order |
| `ReadWrite.ReadItem.HandleBufferNoRt` | sum_of_ints_tcp1/student/CTester/read_write.c:150-183 | the in-place BEFORE and AFTER read |
| `ReadWrite.ReadItem.Start` | sum_of_ints_tcp1/student/CTester/read_write.c:318-328 | a registered buffer starts at its first byte, with the wait of the first chunk in REAL mode |
| `FdEntries.PutIsMapUpdate` | sum_of_ints_tcp1/student/CTester/read_write.c:128-148 | registering is a map update that keeps descriptors distinct and every other entry unchanged and in order |
| `FdEntries.WithoutIsMapRemoval` | sum_of_ints_tcp1/student/CTester/read_write.c:100-120 | removing is map removal that keeps descriptors distinct and every other entry unchanged and in order |
| `FdTable.ReadFdTable.GetEntry` | sum_of_ints_tcp1/student/CTester/read_write.c:73-80 | the scan finds the entry of a descriptor or reports that there is none |
| `FdTable.ReadFdTable.DeleteMatches` | sum_of_ints_tcp1/student/CTester/read_write.c:103-114 | the removal loop, which keeps scanning the shifted entries after a match, deletes exactly the one entry |
| `FdTable.ReadFdTable.RemoveEntry` | sum_of_ints_tcp1/student/CTester/read_write.c:100-120 | removal from the table, and 1 iff the descriptor was there |
| `FdTable.ReadFdTable.GetNewEntry` | sum_of_ints_tcp1/student/CTester/read_write.c:128-148 | a place for the descriptor: its own or a new last one; none iff a needed realloc fails, and then nothing changes |
| `FdTable.ReadFdTable.SetReadBuffer` | sum_of_ints_tcp1/student/CTester/read_write.c:300-330 | set_read_buffer: update or removal, results 1, 0, -1, -2, and no change on an error |
| `FdTable.ReadFdTable.HandleBuffer` | sum_of_ints_tcp1/student/CTester/read_write.c:246-262 | a read moves the cursor of its descriptor only; an unknown descriptor gives -1 and changes nothing |
| `FdTable.ReadFdTable.HandleItem` | sum_of_ints_tcp1/student/CTester/read_write.c:254-271 | the time bookkeeping of a call and the dispatch on the mode |
| `FdTable.ReadFdTable.GetBytesRead` | sum_of_ints_tcp1/student/CTester/read_write.c:332-346 | the summing loop computes the position of the descriptor, -1 for an unknown one |
| `FdTable.CreatePartialReadBuffer` | sum_of_ints_tcp1/student/CTester/read_write.c:357-375 | the chunks have the given lengths and intervals, and glued together they are the start of the data |
| `FailureMask.MaskMeaning` | sum_of_ints_tcp1/student/CTester/wrap.h:98-113 | the k-th monitored call fails iff the mask is FAIL_ALWAYS, or k < 32 and bit k is set; no other mask turns into FAIL_ALWAYS |
| `FailureMask.MaskInNumbers` | sum_of_ints_tcp1/student/CTester/wrap.h:98-113 | 2^32 - 1 fails every call; any other mask fails the k-th call iff k < 32 and bit k is set |
| `FailureMask.AfterIsShift` | sum_of_ints_tcp1/student/CTester/wrap.h:113 | any mask but FAIL_ALWAYS is a plain shift register |
| `FailureMask.FreeMaskMeaning` | sum_of_ints_tcp1/student/CTester/wrap_malloc.c:156-159 | free shifts its mask only on failure: its k-th call fails iff the mask announces a failure for every call up to k |
| `FailureMask.FreeFollowsSchedule` | sum_of_ints_tcp1/student/CTester/wrap_malloc.c:156-159 | free keeps the documented schedule iff the announced failures have no gap before them |
| `FailureMask.FreeIgnoresFailSecond` | sum_of_ints_tcp1/student/CTester/wrap_malloc.c:156-159 | the input: FAIL_SECOND announces a failure of the second call, and no free ever fails |
| `Sandbox.Kernel.Recv` | sum_of_ints_tcp1/student/CTester/wrap_network_socket.c:209-235 | a monitored recv returns the injected result iff its mask says so and then moves nothing; otherwise a replayed descriptor returns the next bytes of its stream, or refuses a MSG_DONTWAIT call, and any other one returns what the real call returns |
| `Sandbox.Kernel.Send` | sum_of_ints_tcp1/student/CTester/wrap_network_socket.c:332-354 | a monitored send returns the injected result when its mask says so, and then nothing is sent; otherwise what it accepts goes out on that descriptor, which must be open |
| `Sandbox.OutputOn` | sum_of_ints_tcp1/student/CTester/wrap_network_socket.c:332-354 | what is sent on a descriptor adds to what went out on it, and on no other |
| `Sandbox.Kernel.Accept` | sum_of_ints_tcp1/student/CTester/wrap_network_socket.c:72-112 | a monitored accept returns the injected result when its mask says so, and then no descriptor is opened; otherwise the next pending one, or -1 |
| `Sandbox.Kernel.Close` | sum_of_ints_tcp1/student/CTester/wrap_file.c:93-110 | a monitored close that is injected to fail leaves the descriptor open; a real one fails on a closed descriptor |
| `Sandbox.NoneScheduledAmong` | sum_of_ints_tcp1/student/CTester/wrap.h:112-113 | the failures among a + b calls are those among the first a and those among the next b |
| `ByteOrder.StoreHtonl` | sum_of_ints_tcp1/student/student_code.c:21-24 | on a little-endian host the memory image of htonl's result is the big-endian encoding |
| `ByteOrder.ByteValues` | sum_of_ints_tcp1/student/student_code.c:21-24 | the positional values of the bytes of a word in network order and in the memory of the host |
| `ByteOrder.HeaderInSize` | sum_of_ints_tcp1/student/student_code.c:61-71 | a header received into the low bytes of a zeroed size_t and passed to ntohl is the announced length |
| `SumOfInts.RequestInStream` | sum_of_ints_tcp1/student/student_code.c:61-72 | a stream that starts with a request yields its length and its integers |
| `SumOfInts.RequestIsPrefixFree` | sum_of_ints_tcp1/student/student_code.c:21-24 | a stream starts with the request of at most one vector |
| `SumOfInts.SumStep` | sum_of_ints_tcp1/student/student_code.c:94-97 | adding with 32-bit wrap-around at every step is the sum modulo 2^32 |
| `SumOfInts.SumMeans` | sum_of_ints_tcp1/student/student_code.c:94-97 | the answer is the sum of the integers modulo 4 294 967 296, in the range of a uint32_t |
| `TcpPair.SendAll` | sum_of_ints_tcp1/student/student_code.c:25-33 | the sending loops get every byte through in order, whatever each call accepts; they stop at the first failure, and then a proper prefix has gone out |
| `TcpPair.RecvAll` | sum_of_ints_tcp1/student/student_code.c:62-70 | the receiving loops collect exactly the next bytes of the stream, however it is cut; 0 bytes take one call; after a failure the stream has advanced by what earlier calls returned |
| `TcpPair.RecvNeverEnds` | sum_of_ints_tcp1/student/student_code.c:62-70 | when the stream is shorter than what a receiving loop waits for and no failure is injected, the loop has not ended after any number of turns |
| `TcpPair.FillRequest` | sum_of_ints_tcp1/student/student_code.c:21-24 | the encoding loop fills the buffer with the request |
| `TcpPair.GetSumOfIntsTcp` | sum_of_ints_tcp1/student/student_code.c:12-48 | the client under any failure schedule returns 0 iff no injected or real failure falls on its calls, -1 iff malloc returned NULL; -2 and an unchanged *rep after a failed recv; nothing stays allocated; the whole request has gone out iff it came to receive, and otherwise a proper prefix |
| `TcpPair.BelieveInjectedCount` | sum_of_ints_tcp1/student/student_code.c:36-46 | the input: an injected recv result of 4 makes the client return 0 with an answer that never came |
| `TcpPair.BytesReadAdvances` | sum_of_ints_tcp1/student/CTester/read_write.c:332-346 | around a run of the client under any failure schedule, get_bytes_read grows by exactly the bytes that its recv calls returned, by 4 iff it succeeds |
| `TcpPair.ReceiveLength` | sum_of_ints_tcp1/student/student_code.c:60-72 | the header loop and its decoding |
| `TcpPair.SumWords` | sum_of_ints_tcp1/student/student_code.c:94-97 | the summing loop computes the sum modulo 2^32 of the decoded words |
| `TcpPair.ReceiveAndSum` | sum_of_ints_tcp1/student/student_code.c:74-98 | the body: one allocation, freed on every path, the descriptor closed iff something failed, and the sum of what was received |
| `TcpPair.ServerTcp` | sum_of_ints_tcp1/student/student_code.c:50-118 | the server under any failure schedule, on the descriptor that accept returns or is injected to return: 0 iff no failure falls on its calls, -1 iff malloc returned NULL, otherwise -2; on 0 it has consumed exactly the request and sent exactly the sum on that descriptor, and otherwise at most a part of it; close is called exactly once on it and every block freed on every path |
| `TcpPair.ServeFragmented` | sum_of_ints_tcp1/student/student_code.c:60-117 | for every vector, every cut into chunks (empty ones too), each mode and any timing, without failures the answer is the sum modulo 2^32 and get_bytes_read gives 4 * (n + 1) |
| `TwoParty.StepInv` | sum_of_ints_tcp1/student/student_code.c:12-118 | in every interleaving over bounded channels no byte is lost, duplicated, reordered or invented, and both sides compute what they should |
| `TwoParty.NeverStuck` | sum_of_ints_tcp1/student/student_code.c:25-111 | no reachable unfinished state is stuck, for any channel capacity of at least 1 |
| `TwoParty.MeasureDecreases` | sum_of_ints_tcp1/student/student_code.c:25-111 | unsent and undelivered bytes decrease with every step |
| `TwoParty.EveryRunEndsWell` | sum_of_ints_tcp1/student/student_code.c:12-118 | every run has at most 8 * (n + 1) + 9 steps, and one that cannot go on has both sides returned 0 and *rep equal to the sum modulo 2^32 |
| `UdpPair.ServerUdp` | sum_of_ints_udp/student/student_code.c:57-96 | 0 iff malloc works, a datagram arrives and the whole answer goes out, which is the sum of its whole words, and otherwise at most a part of it; -1 iff malloc fails; the buffer is freed on every path |
| `UdpPair.ServeVector` | sum_of_ints_udp/student/student_code.c:57-96 | the program answers the datagram of a vector that the client accepts to send with its sum modulo 2^32, as the TCP server does |
| `UdpPair.GetSumOfIntsUdp` | sum_of_ints_udp/student/student_code.c:12-55 | -3 iff the vector is too long, and then nothing happens; -1 iff malloc fails; 0 iff malloc works, the whole datagram goes out and a word comes back, and at most a part of it has gone out when send is to blame; *rep is unchanged unless it succeeds, and the sum when the answer is the server's |
| `UdpPair.ReplyToVector` | sum_of_ints_udp/student/student_code.c:67-88 | the server adds up the first 16000 integers; fewer than four trailing bytes change nothing |
| `UdpPair.UdpTcpAgree` | sum_of_ints_udp/student/student_code.c:69-88 | up to 16000 integers the datagram fits and the reply is that of the TCP server; beyond, iff the rest adds up to 0 modulo 2^32 |
| `WrapMalloc.AllocAccounts` | sum_of_ints_tcp1/student/CTester/wrap_malloc.c:73-89 | an allocation keeps used equal to the logged total iff it was logged or has size 0 |
| `WrapMalloc.ResizeAccounts` | sum_of_ints_tcp1/student/CTester/wrap_malloc.c:91-110 | a realloc keeps used exact iff the address is NULL or in the log |
| `WrapMalloc.ResizeUnknown` | sum_of_ints_tcp1/student/CTester/wrap_malloc.c:54-110 | a realloc of an address that is not in the log counts one byte more than the new size |
| `WrapMalloc.ReleaseAccounts` | sum_of_ints_tcp1/student/CTester/wrap_malloc.c:134-161 | a free keeps used exact, also for an unknown address, and the address leaves the log |
| `WrapMalloc.LiveTotalIsHeapTotal` | sum_of_ints_tcp1/student/CTester/wrap_malloc.c:183-191 | the sum that malloc_allocated computes is the total size of the blocks that the log lists |
| `WrapMalloc.StepMatches` | sum_of_ints_tcp1/student/CTester/wrap_malloc.c:73-161 | from a state where the log lists exactly the blocks that the real calls left allocated and used is their total size, a call leads to such a state iff: an allocation is injected to fail, logged, or of size 0; a realloc is injected to fail, in place, or fails on an unchanged size; a free is not injected to fail |
| `WrapMalloc.RunAccounts` | sum_of_ints_tcp1/student/CTester/wrap_malloc.c:73-191 | over any run of monitored calls used, malloc_allocated() and the total size of the existing blocks agree after every call, and live addresses stay distinct, iff every call is one of those |
| `WrapMalloc.FewAllocationsMatch` | sum_of_ints_tcp1/student/CTester/wrap_malloc.c:45-191 | with fresh addresses, reallocs in place, no injected failure of free and at most MAX_LOG allocations in all, the three agree after every call of any run |
| `WrapMalloc.InjectedFreeBreaks` | sum_of_ints_tcp1/student/CTester/wrap_malloc.c:147-161 | the input: after an injected failure of free the block still exists, and used is 0 |
| `WrapMalloc.InjectedFreeRun` | sum_of_ints_tcp1/student/CTester/wrap_malloc.c:73-161 | the same with the wrappers, from a new log |
| `WrapMalloc.RunWrappers` | sum_of_ints_tcp1/student/CTester/wrap_malloc.c:73-161 | over any run of calls, the k-th malloc, calloc and realloc return the injected result iff the initial mask schedules a failure for it, and the k-th free of an address is suppressed iff it schedules failures for every free up to it |
| `WrapMalloc.MallocWrappers.Malloc` | sum_of_ints_tcp1/student/CTester/wrap_malloc.c:73-89 | the wrapper: injected result without accounting, or the real result logged and counted |
| `WrapMalloc.MallocWrappers.Calloc` | sum_of_ints_tcp1/student/CTester/wrap_malloc.c:113-132 | the same for nmemb * size bytes |
| `WrapMalloc.MallocWrappers.Realloc` | sum_of_ints_tcp1/student/CTester/wrap_malloc.c:91-110 | the wrapper makes the modelled step: it counts the difference and keeps the address that was passed |
| `WrapMalloc.MallocWrappers.Free` | sum_of_ints_tcp1/student/CTester/wrap_malloc.c:147-161 | the wrapper clears the slot and subtracts its size, even when the real free is suppressed; its mask moves only on failure |
| `WrapMalloc.MallocWrappers.Allocated` | sum_of_ints_tcp1/student/CTester/wrap_malloc.c:183-191 | the loop over the slots computes the sum of the live block sizes as an int, which is used and the total size of the existing blocks when the account is true |
| `NetworkDns.RemoveFirstIsMinusOne` | sum_of_ints_tcp1/student/CTester/wrap_network_dns.c:62-85 | removal takes away exactly one occurrence, or nothing |
| `NetworkDns.AddrInfoStats.AddResult` | sum_of_ints_tcp1/student/CTester/wrap_network_dns.c:48-55 | recording puts the address in front of an acyclic list, unless malloc fails |
| `NetworkDns.AddrInfoStats.RemoveResult` | sum_of_ints_tcp1/student/CTester/wrap_network_dns.c:62-85 | relinking removes the first node of the address and keeps the order of the rest; 0 iff it was there |
| `NetworkDns.AddrInfoStats.FreeAddrInfo` | sum_of_ints_tcp1/student/CTester/wrap_network_dns.c:166-182 | status is 0 iff checking is off or the address was recorded |
| `NetworkDns.RunEvents` | sum_of_ints_tcp1/student/CTester/wrap_network_dns.c:48-182 | over any recordings and frees the list in memory holds what is outstanding, and each free reports 0 iff its address was recorded more often than removed |
| `NetworkDns.StatusIsBalance` | sum_of_ints_tcp1/student/CTester/wrap_network_dns.c:118-182 | over any interleaving, freeing an address is reported valid iff it was recorded more often than removed |
| `MockPeer.WaitRecvTcp` | sum_of_ints_tcp1/student/CTester/util_sockets.c:167-244 | undisturbed, the result is 0, 2, 3 or 4 iff the whole stream is as expected, shorter, longer or of equal length and different; otherwise -3, -2, -1 or 1 by what disturbed it; at most one byte too many is buffered |
| `MockPeer.WaitSendTcp` | sum_of_ints_tcp1/student/CTester/util_sockets.c:255-305 | 0 iff nothing disturbed it, and then exactly the data was sent, otherwise a proper prefix, and -3, -2, -1 or 1 by what disturbed it |
| `MockPeer.HandleTransaction` | sum_of_ints_tcp1/student/CTester/util_sockets.c:468-520 | each chunk is handled in turn up to the first fatal result, and the pipe gets the message of each; Ok alone means that everything was sent, the first receive chunk expected the whole stream and later ones nothing; if no event and no failing call disturbs the transaction it means exactly that; the result is 3 iff the control pipe got a message, 2 iff it broke or poll or malloc failed, otherwise 0 |
| `MockPeer.CalmIsExact` | sum_of_ints_tcp1/student/CTester/util_sockets.c:468-520 | chunks that nothing disturbs are all handled, and leave no message iff the stream is what they expect |
| `MockPeer.SecondReceiveFails` | sum_of_ints_tcp1/student/CTester/util_sockets.c:167-244 | a transaction that expects something in a second receive chunk succeeds on no stream |
| `MockPeer.OkAfterTooFew` | sum_of_ints_tcp1/student/CTester/util_sockets.c:468-520 | the input: a transaction that reports too few bytes and then Ok, and returns 0 |
| `TestMetadata.Metadata.PushInfoMsg` | sum_of_ints_tcp1/student/CTester/CTester.c:83-111 | a message without '#' and newline is queued last; any other sets EINVAL and is dropped |
| `TestMetadata.Metadata.SetTag` | sum_of_ints_tcp1/student/CTester/CTester.c:113-124 | the first 30 characters of a tag are kept iff they are allowed and fewer than twenty tags are set |
| `TestMetadata.Metadata.PrintTags` | sum_of_ints_tcp1/student/CTester/CTester.c:400-410 | the slots with commas between them; one that is full runs on into the next |
| `TestMetadata.PrintedExactly` | sum_of_ints_tcp1/student/CTester/CTester.c:113-124 | the printed tags are those that were set iff none that fills its slot is followed by another |
| `TestMetadata.FullTagRunsOn` | sum_of_ints_tcp1/student/CTester/CTester.c:113-124 | the input: a tag of 30 characters and the tag b are printed, and read back, as two other tags |
| `TestMetadata.Metadata.DrainQueue` | sum_of_ints_tcp1/student/CTester/CTester.c:413-426 | the messages in push order, each after a '#', and an empty queue |
| `TestMetadata.Metadata.PrintRecord` | sum_of_ints_tcp1/student/CTester/CTester.c:389-429 | the printed text is the line of the record; by the filters of set_tag and push_info_msg, and with one-field texts and one-line messages, run.py reads exactly that record back |
| `Records.LineRoundTrip` | sum_of_ints_tcp1/run.py:83-84 | splitting a printed line recovers problem, code, description, weight, non-empty tags in order and messages in push order |
| `Records.FileRoundTrip` | sum_of_ints_tcp1/run.py:83-84 | reading the whole file recovers every record, in order |
| `Records.WeightSurvives` | sum_of_ints_tcp1/student/CTester/CTester.c:391-396 | the weight is recovered iff it is below 2^31; larger ones come back negative |
| `Records.TagsRoundTrip` | sum_of_ints_tcp1/run.py:84-101 | splitting the printed tags at commas gives the non-empty tags in order |
| `Records.NonEmptyMeans` | sum_of_ints_tcp1/run.py:99-101 | exactly the empty tags go, and the others keep their number and order |
| `Records.TagCharacters` | sum_of_ints_tcp1/student/CTester/CTester.c:113-124 | the characters that set_tag allows, by their codes |
| `Text.SplitJoin` | sum_of_ints_tcp1/run.py:83-84 | split undoes join when no part contains the separator |
| `Text.JoinSplit` | q-bgp-rt-1/run.py:8-13 | join undoes split, always, and no part contains the separator |
| `Grading.GradeAll` | sum_of_ints_tcp1/run.py:93-135 | the loops compute for each tested problem whether all its results are SUCCESS, and the grade: grade * total == 100 * score for the sums of points, with a total of 1 when there is nothing to score |
| `Grading.VerdictMeans` | sum_of_ints_tcp1/run.py:102-110 | a problem has a verdict iff some result belongs to it, and is passed iff every such result is SUCCESS |
| `Grading.GradeIsPercentage` | sum_of_ints_tcp1/run.py:134 | with non-negative weights the grade is within 0..100, and 100 iff there is something to score and nothing was missed |
| `Grading.OrderIsIrrelevant` | sum_of_ints_tcp1/run.py:97-135 | neither the grade nor the verdicts depend on the order of the results |
| `Grading.GradeOfFile` | sum_of_ints_tcp1/run.py:83-135 | through the file, grade * total == 100 * score for the points of the printed records; 100 iff something can be scored, every test with a weight was passed and every answer is right |
| `BgpChecker.GetMapping` | q-bgp-rt-1/run.py:15-19 | the loop builds the map from names to roles |
| `BgpChecker.MappingIsInverse` | q-bgp-rt-1/run.py:15-19 | for an injective renaming it is the inverse of the map from roles to names |
| `BgpChecker.MappingMeans` | q-bgp-rt-1/run.py:15-19 | for an injective renaming both maps hold every entry of the data |
| `BgpChecker.CheckFormat` | q-bgp-rt-1/run.py:61-79 | the paths of an answer in roles, or the empty list iff some name is unknown |
| `BgpChecker.NoSpacesMeans` | q-bgp-rt-1/run.py:8-9 | exactly the spaces go, wherever they stand |
| `BgpChecker.StripMeans` | q-bgp-rt-1/run.py:67 | strip takes all blanks from both ends and nothing else |
| `BgpChecker.CheckFormatSpaced` | q-bgp-rt-1/run.py:61-79 | a space anywhere in an answer changes nothing |
| `BgpChecker.CheckAnswer` | q-bgp-rt-1/run.py:25-58 | success iff the lists are equal; at the first difference: no route iff the correct path is 0, a route iff only the answer is 0, and else by whether the last ASes agree; when the index runs out of range |
| `BgpChecker.NoRouteIsExact` | q-bgp-rt-2/run.py:60-109 | when no role is named 0, what is read as the path 0 is a bare 0 and nothing else |
| `BgpChecker.OneSpelling` | q-bgp-rt-1/run.py:61-92 | an answer that is not a bare 0 is accepted iff without spaces it is the correct list in the names shown; when there is no route, a bare 0 and nothing else is accepted |
| `BgpChecker.OneSpellingPlain` | q-bgp-rt-1/run.py:61-92 | with proper names exactly one spelling is accepted, up to spaces; only a role named 0 has a second one |
| `BgpChecker.CheckQuestion` | q-bgp-rt-1/run.py:82-92 | one question from the data to the verdict, for a list of paths or for no route; without spaces, an answer that is not a bare 0 is correct iff it is the spelling of the list |

## Left out

- Real system calls, signals, forks, pipes, CUnit and gettext: replaced by the arbitrary values described above.
- get_current_chunk_id, which always returns -1.
- int64_t overflow of nanosecond times: times are unbounded integers.
- The TCP programs on a descriptor without a read buffer: `Kernel.Recv` covers it, the programs are modelled on replayed descriptors.
- RecvAll: requires count outstanding bytes, because the loop does not end without them, as `RecvNeverEnds` shows; and an injected result of -1, because the loop counts any other as bytes received.
- ReceiveLength: requires the same of the stream and of the injected results.
- ReceiveAndSum: requires the same of the stream and of the injected results.
- GetSumOfIntsTcp: requires the same of the stream and of the injected results, for the reason that `BelieveInjectedCount` shows.
- BytesReadAdvances: requires the same of the stream and of the injected results.
- ServerTcp: requires the same of the stream and of the injected results.
- SendAll: requires an injected result of -1, because the loop counts any other as bytes sent.
- CreatePartialReadBuffer: does not model a failure of its malloc, after which the caller's struct is freed twice.
- malloced: its range test on cleared slots does not mean what its comment says.
- last_return and last_params bookkeeping of the wrappers, and the address copies of accept and recvfrom.
- Problem and description texts that fill their arrays and have no terminator.
- The error code that run_tests returns instead of printing a record when push_info_msg has failed.
- Leaks in push_info_msg when its second allocation fails.
- int() on text that %d does not print, such as blanks or underscores around digits.
- Floating-point rounding of the grade: it is a real number.
- wait_recv_udp, the UDP transactions and the launchers of test processes: the same loops without streams.
- The texts of feedback, the global result and the choice between 50 and 100 as the pass mark.
- The STP, IPv6, TFTP and DNS exercises: fixed answers and library calls.
