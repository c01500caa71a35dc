# Borked3DS verification models

Dafny models of five self-contained parts of the emulator and of the HTTP library
it ships, with proofs of what they promise. Each module models one component; the
loops and field updates of the original are methods on classes, arrays and
sequences, proved against functions on values, and the properties are lemmas about
those functions. Threads are interleaved steps over a shared state.

| files | component |
|---|---|
| `GetoptSpec.dfy`, `GetoptLayout.dfy`, `GetoptScanner.dfy` | the permuting `getopt`, narrow characters |
| `Modular.dfy`, `SpscQueue.dfy`, `MpmcQueue.dfy` | machine words, and the bounded ring between threads |
| `ThreadPool.dfy`, `ClientSocket.dfy` | the two lock protocols of the HTTP library |
| `Audio.dfy`, `Interpolate.dfy`, `Adpcm.dfy` | the resampler and the ADPCM decoder |
| `Base64.dfy`, `Sequences.dfy`, `Text.dfy`, `Query.dfy`, `Headers.dfy` | base64, fields and hexadecimal, query strings, header lines |
| `Stream.dfy`, `Chunked.dfy` | the socket buffer, the line reader and the chunked coding (section 7.1 of RFC 9112) |
| `MultipartSpec.dfy`, `MultipartParser.dfy`, `MultipartHeaders.dfy`, `MultipartBody.dfy`, `MultipartParts.dfy`, `MultipartLines.dfy`, `MultipartRoundTrip.dfy`, `MultipartCut.dfy` | multipart form data (RFC 7578, section 4.1; RFC 2046, section 5.1.1) |

Conventions. A `char` stands for one byte. Machine integers are written out where
their width matters: the queue's indices and the resampler's position in 64 bits,
the ADPCM filter and the base64 accumulator in 32. Atomics are sequentially
consistent, but an index once loaded goes stale. `recv` and `send` move any
nonempty part of what there is; they, the content receiver, the progress callback and
the multipart callbacks may also fail or refuse, unless the object is marked reliable
or willing.

Where a property does not hold of the code it is stated with its limit. The
multipart parser drops everything that arrives before the first delimiter is whole
(`externals/httplib/httplib.h:4398`), so the round trip needs that delimiter in one
piece; `RoundTripExactly` shows that this is also necessary, for every message and
every cut. Its limit on header lines holds only for the line that a call goes on with
(`externals/httplib/httplib.h:4412`): `LongLineIsRefused` and `LongLineIsTaken` tell
the two cases apart. The chunked writer makes no further call after one whose last action is an
empty write (`externals/httplib/httplib.h:4136`), and reports success although the body
is not ended; `ProviderRoundTrip` shows that its text is read back exactly when no call
ends so, and `EmptyWriteAtEnd` gives an input for which it is not. The ADPCM filter can
overflow 32 bits, exactly for the coefficients that `SafeIsExact` tells.

## Model

| member | source | states |
|---|---|---|
| `GetoptScanner.Scanner.Exchange` | externals/getopt/getopt.c:79-114 | turns the operand block A and the option block B behind it into B then A with the order inside each kept, touches nothing outside them, and moves both indices to delimit A |
| `GetoptScanner.SwapShorter` | externals/getopt/getopt.c:86-110 | one round of the rotation: a strictly smaller pair of blocks is left whose rotation has the same goal |
| `GetoptScanner.SwapBlocks` | externals/getopt/getopt.c:93-98 | equally long disjoint blocks change places and no other entry changes |
| `GetoptScanner.RotateLow` | externals/getopt/getopt.c:88-100 | swapping the shorter first block to the end leaves a rotation to the same goal |
| `GetoptScanner.RotateHigh` | externals/getopt/getopt.c:101-110 | swapping the shorter second block to the front does so as well |
| `GetoptScanner.Scanner.FindLong` | externals/getopt/getopt.c:125-208 | an exact name wins, otherwise an abbreviation must stand for interchangeable options: the two loops agree with the declarative match |
| `GetoptScanner.Scanner.ProcessLongOption` | externals/getopt/getopt.c:116-247 | consumes what the reference reading of the element consumes, with its outcome; the fall-through to short options changes nothing |
| `GetoptScanner.Scanner.ShortOption` | externals/getopt/getopt.c:354-419 | reads one letter of a cluster as the reference does, through the `W;` form, missing, attached and following arguments |
| `GetoptScanner.Scanner.Initialize` | externals/getopt/getopt.c:249-274 | a fresh scan in the order that the option string and the environment ask for |
| `GetoptScanner.Scanner.StepOverOperands` | externals/getopt/getopt.c:296-307 | operands stepped over before are rotated next to the new ones; the kept elements and the ones to come stay the same |
| `GetoptScanner.Scanner.Terminate` | externals/getopt/getopt.c:308-318 | `--` joins the options and everything behind it becomes operands |
| `GetoptScanner.Scanner.Conclude` | externals/getopt/getopt.c:319-324 | at the end `optind` points at the first operand |
| `GetoptScanner.Scanner.Next` | externals/getopt/getopt.c:276-421 | one call refines one call of a scanner that never permutes: same outcome, `argv` a rotation that keeps options and operands in order, first_nonopt <= last_nonopt <= optind <= argc |
| `GetoptScanner.Scanner.ScanToEnd` | externals/getopt/getopt.c:276-421 | repeated calls reach -1, with the outcomes of the reference run |
| `GetoptScanner.Scanner.ScanAll` | externals/getopt/getopt.c:276-421 | in PERMUTE order, when -1 is returned, `argv` is a stable partition of the original: what belongs to options (and a `--`) in original order before `optind`, the operands in original order from it on; for every understanding of the command line as options and operands the codes are those of the options and these are their elements |
| `GetoptScanner.StartDestined` | externals/getopt/getopt.c:249-274 | a fresh PERMUTE scan is destined to end with that partition |
| `GetoptSpec.NextDecreases` | externals/getopt/getopt.c:289-420 | every call that reports something reads at least one character of the command line, on the short, long, long-only and `W;` paths alike |
| `GetoptSpec.RunIsBounded` | externals/getopt/getopt.c:289-420 | the number of calls before -1 is bounded by the total length of the elements |
| `GetoptSpec.NextKeepsDestined` | externals/getopt/getopt.c:276-421 | no call changes which elements end up before and which from `optind` on, as decided by reading the untouched command line once from left to right |
| `GetoptSpec.RunPartitions` | externals/getopt/getopt.c:276-421 | a whole run ends with exactly those two groups |
| `GetoptSpec.SelectionsPartition` | externals/getopt/getopt.c:276-421 | the two groups together hold every element exactly once |
| `GetoptSpec.OperandsFirst` | externals/getopt/getopt.c:304-306 | operands in front only add to the operands |
| `GetoptSpec.OptionFirst` | externals/getopt/getopt.c:333-353 | an option element and what it uses up only add to the options |
| `GetoptSpec.TerminatorFirst` | externals/getopt/getopt.c:308-318 | behind `--` everything is an operand |
| `GetoptLayout.LetterMeans` | externals/getopt/getopt.c:366-390 | what is found of a letter in the option string is what its first declaration says: nothing, a flag, a required or an optional argument, or a long option |
| `GetoptLayout.MatchIs` | externals/getopt/getopt.c:125-208 | an exact name, the only abbreviation up to options that differ in name alone, an ambiguous one, or none: as stated by quantifiers over the table, so found |
| `GetoptLayout.LongRead` | externals/getopt/getopt.c:116-247 | a long option written with `=`, with its argument in the next element or with none is reported with its index, argument and stored flag; unknown, ambiguous, disallowed and missing ones with their codes |
| `GetoptLayout.FlagsRun` | externals/getopt/getopt.c:355-384 | the letters of a cluster that take no argument, unknown ones among them, are reported one by one |
| `GetoptLayout.TailRead` | externals/getopt/getopt.c:367-418 | a cluster's last letter with its argument attached, in the next element, left out or missing, or with a long option, takes exactly its elements and reports its argument |
| `GetoptLayout.OptionRun` | externals/getopt/getopt.c:333-420 | whatever comes behind it, an option in any of the usual forms, behind one dash or two, is reported as it was meant and takes exactly its own elements |
| `GetoptLayout.LineRun` | externals/getopt/getopt.c:276-421 | the law from options to command lines, in all three orders: from any list of options and operands, interleaved, and a `--` with more operands, the scan reports exactly the options' codes, arguments and indices, and takes, steps over and leaves exactly what it should |
| `GetoptLayout.CommandLine` | externals/getopt/getopt.c:276-421 | in PERMUTE order the elements set apart as operands are exactly the operands that were written |
| `GetoptLayout.EveryLine` | externals/getopt/getopt.c:276-421 | the forms leave nothing out: every command line is written in them, for any option table |
| `GetoptLayout.PortAndGame` | src/borked3ds/borked3ds.cpp:233-236 | the emulator's own option string: of `-g 24689 game.3dsx` the port is the argument and the game the operand |
| `SpscQueue.NextInv` | src/common/bounded_threadsafe_queue.h:75-152 | every step of either side keeps the invariant on counters, slots, stale indices, mutexes and wakeups |
| `SpscQueue.RunInv` | src/common/bounded_threadsafe_queue.h:75-152 | it holds in every state of every interleaving |
| `SpscQueue.RunRefinesFifo` | src/common/bounded_threadsafe_queue.h:75-152 | in every run the wrapped indices differ by the number of values held, between 0 and the capacity, popped values are a prefix of the pushed ones, and every step is a step of a bounded first-in first-out queue |
| `SpscQueue.NoSlotIsShared` | src/common/bounded_threadsafe_queue.h:107-111 | no slot is constructed in while it is moved from, however stale the loaded indices are |
| `SpscQueue.TryFailsForCause` | src/common/bounded_threadsafe_queue.h:79-83 | a try that is about to give up found the queue full, or empty, at the moment it loaded the other index, and only then |
| `SpscQueue.EmplacePushes` | src/common/bounded_threadsafe_queue.h:75-108 | in every run a finished call has pushed exactly its own value if it returned true, and nothing if it returned false, which only a try does |
| `SpscQueue.TryEmplaceIsExact` | src/common/bounded_threadsafe_queue.h:79-83 | a try succeeds if and only if the queue was not full at one moment of the call |
| `SpscQueue.PopTakes` | src/common/bounded_threadsafe_queue.h:110-152 | in every run a finished call has taken exactly one value, the next one pushed, and handed it to its caller, or none; none only for a try or a stoppable call whose token has been requested |
| `SpscQueue.StoppedPopTakesNothing` | src/common/bounded_threadsafe_queue.h:125-133 | a stoppable call whose token was requested before takes nothing |
| `SpscQueue.TryPopIsExact` | src/common/bounded_threadsafe_queue.h:114-118 | a try returns nothing if and only if the queue was empty at one moment of the call |
| `SpscQueue.NoLostWakeup` | src/common/bounded_threadsafe_queue.h:84-119 | nobody sleeps beside work to do unless the other side stands between its increment and its notification, and can move |
| `SpscQueue.NoDeadlock` | src/common/bounded_threadsafe_queue.h:84-152 | the two sides are never stuck together |
| `SpscQueue.StepOpen` | src/common/bounded_threadsafe_queue.h:75-152 | a side that is not stuck has a step to take |
| `SpscQueue.LoadIsExact` | src/common/bounded_threadsafe_queue.h:81-90 | the wrapped difference of the indices is the true count when they are loaded |
| `Modular.SubOfCounters` | src/common/bounded_threadsafe_queue.h:81-90 | unsigned subtraction of wrapped counters is their difference while they are less than a word apart |
| `Modular.SlotOfCounter` | src/common/bounded_threadsafe_queue.h:24-108 | wrap-around leaves the slot of a counter alone, because a power of two divides the word |
| `Modular.SlotsDiffer` | src/common/bounded_threadsafe_queue.h:108-108 | counters less than a capacity apart have different slots |
| `MpmcQueue.MStepIsInnerStep` | src/common/bounded_threadsafe_queue.h:205-249 | any number of threads under the two mutexes take steps of the inner queue by one producer and one consumer |
| `MpmcQueue.MRunInv` | src/common/bounded_threadsafe_queue.h:205-249 | the logs of pushes and pops are those of the inner queue, in the order in which the locks were taken |
| `MpmcQueue.PopsFollowPushes` | src/common/bounded_threadsafe_queue.h:205-249 | linearizability: popped values in read-lock order are a prefix of pushed values in write-lock order, each once, at most a capacity apart |
| `MpmcQueue.WriteIsLogged` | src/common/bounded_threadsafe_queue.h:209-218 | each finished call under the write lock has exactly one log entry, with its own thread and argument, if it returned true, and none otherwise |
| `MpmcQueue.ReadIsLogged` | src/common/bounded_threadsafe_queue.h:220-243 | each finished call under the read lock has exactly one log entry, with what it handed to its caller, if it took something |
| `MpmcQueue.SomeoneCanMove` | src/common/bounded_threadsafe_queue.h:205-249 | a writer inside the queue has a step, or a reader inside has one, or the writer sleeps before a full queue with no reader inside; likewise for a reader and an empty queue; a mutex that is free can be taken |
| `MpmcQueue.StuckForCause` | src/common/bounded_threadsafe_queue.h:84-152 | a side that is stuck waits for the other, which is in the middle of a call and not stuck, or sleeps before a queue that is full, or empty |
| `ThreadPool.NextInv` | externals/httplib/httplib.h:685-731 | every step of a worker, an enqueuing thread or `shutdown` keeps the invariant |
| `ThreadPool.RunInv` | externals/httplib/httplib.h:685-731 | it holds in every state of every interleaving of any number of workers and enqueuing threads |
| `ThreadPool.ShutdownDrains` | externals/httplib/httplib.h:685-731 | when `shutdown` has returned, every job queued before it has run exactly once; no job ever runs twice |
| `ThreadPool.EnqueueQueues` | externals/httplib/httplib.h:685-692 | each finished `enqueue` has appended its own job to the list exactly once, in one step, and stands before its notification from there on |
| `ThreadPool.NoLostWakeup` | externals/httplib/httplib.h:685-731 | beside a sleeping worker, in every reachable state, there are no more jobs than workers about to look at the list and notifications still to come |
| `ThreadPool.SomeoneCanMove` | externals/httplib/httplib.h:685-731 | no deadlock: while there is a job and a worker left, or a `shutdown` to finish, somebody can move |
| `ThreadPool.MoversHaveSteps` | externals/httplib/httplib.h:685-731 | whoever is said to be able to move has a step |
| `ClientSocket.NextInv` | externals/httplib/httplib.h:6877-6974 | every step of nested sends and of `stop`, on any thread, keeps the invariant |
| `ClientSocket.RunInv` | externals/httplib/httplib.h:6877-6974 | it holds in every interleaving of any number of threads |
| `ClientSocket.InFlightIsOwners` | externals/httplib/httplib.h:6886-6957 | the in-flight count is the number of active requests of the one thread that holds the request mutex, which is the recorded thread; no other thread has any |
| `ClientSocket.AssertionsHold` | externals/httplib/httplib.h:6811-6839 | nobody closes the socket while another thread has a request in flight, so every assertion of the code holds wherever it is reached |
| `ClientSocket.ConnectsWhenClosed` | externals/httplib/httplib.h:6895-6927 | a connection is only made while the socket is closed, and an open socket is either found dead and closed first or used again as it is |
| `ClientSocket.KeptIfAsked` | externals/httplib/httplib.h:6945-6964 | a request that has failed, or does not keep the connection, leaves the socket closed; one that keeps it leaves it alone unless there is an order to close |
| `ClientSocket.StopCloses` | externals/httplib/httplib.h:6893-6957 | an order to close that `stop` has given is carried out: once no request is in flight and the socket mutex is free the socket has been closed, unless a nested request has taken the order back |
| `ClientSocket.SocketMutexIsBrief` | externals/httplib/httplib.h:7974-7995 | the holder of the socket mutex always has a next step, so `stop` does not wait for a request |
| `Interpolate.StepThrough` | src/audio_core/interpolate.cpp:32-45 | for every 64-bit step the loop outputs exactly as many samples as the room and the input allow, each at its position in 64 bits |
| `Interpolate.StepOverSamples` | src/audio_core/interpolate.cpp:20-52 | one call with any 64-bit step: those outputs, the rest of the input with two samples of history kept, and the position within them; where the position does not wrap it is the call over the integers, whose position never underflows |
| `Interpolate.CallWrapsNot` | src/audio_core/interpolate.cpp:20-52 | a call whose last position fits in 64 bits is the call over the integers |
| `Interpolate.DropIsBehind` | src/audio_core/interpolate.cpp:47-51 | the position never falls behind the samples given up, and ends below one sample and one step |
| `Interpolate.StreamingIsOnePass` | src/audio_core/interpolate.cpp:20-52 | over any calls, inputs and frames the k-th output is the kernel at position P0 + k * step of the history followed by all input |
| `Interpolate.CutsDoNotMatter` | src/audio_core/interpolate.cpp:20-52 | two ways of cutting the same input into buffers and frames output the same samples |
| `Interpolate.SavedPositionIsSmall` | src/audio_core/interpolate.cpp:47-49 | from a fresh start the saved position stays below one sample and one step |
| `Interpolate.PositionIsLinear` | src/audio_core/interpolate.cpp:44-44 | the k-th position is the start plus k steps |
| `Interpolate.PositionDoesNotWrap` | src/audio_core/interpolate.cpp:44-44 | for steps up to 2^56 no call of a fresh resampler reaches the end of the 64-bit position |
| `Interpolate.LinearIsExact` | src/audio_core/interpolate.cpp:66-74 | the unsigned product, quotient and cast equal the signed sum with the quotient rounded down, which lies between the two samples |
| `Interpolate.OutputsLieBetween` | src/audio_core/interpolate.cpp:61-75 | every sample output by linear interpolation lies between its two neighbours, on both channels |
| `Interpolate.LinearOutput` | src/audio_core/interpolate.cpp:61-75 | each output at position p is the sample before it plus the fraction of the clamped difference to the sample behind it, rounded down, on both channels |
| `Interpolate.HeldOutput` | src/audio_core/interpolate.cpp:54-59 | without interpolation it is the sample before it |
| `Interpolate.LinearRun` | src/audio_core/interpolate.cpp:20-75 | over whole runs the k-th output is that value at P0 + k * step of the history followed by all input |
| `Interpolate.HeldRun` | src/audio_core/interpolate.cpp:20-59 | likewise without interpolation |
| `Interpolate.UnitRateCopies` | src/audio_core/interpolate.cpp:20-75 | at rate one from position zero the k-th output is the k-th sample, with either kernel |
| `Adpcm.DecodeADPCM` | src/audio_core/codec.cpp:16-80 | the buffer holds the filter's samples of every code in order, rounded up to an even number, and the saved state is the filter's history, lossless in 16 bits; read off the bytes: both channels equal, every sample with safe coefficients the clamped recurrence, the state the last two samples |
| `Adpcm.DecodeFrame` | src/audio_core/codec.cpp:36-75 | the samples of one frame behind those of the frames before it |
| `Adpcm.DecodeBytes` | src/audio_core/codec.cpp:62-74 | the inner loop: both samples of every byte of a frame, as far as samples are asked for |
| `Adpcm.DecodeSample` | src/audio_core/codec.cpp:47-60 | one sample further in the filter, every 32-bit operation wrapping |
| `Adpcm.DecodingComposes` | src/audio_core/codec.cpp:29-80 | decoding n1 + n2 samples with n1 a multiple of 14 is decoding n1 and then n2 from the saved state, with the same final state |
| `Adpcm.FilterComposes` | src/audio_core/codec.cpp:47-60 | the filter over two runs of codes is the filter over both |
| `Adpcm.CodesOfRest` | src/audio_core/codec.cpp:36-63 | the codes of the data are those of its first frames and those of the rest |
| `Adpcm.SafeIsExact` | src/audio_core/codec.cpp:47-52 | a condition on a pair of coefficients holds if and only if no 32-bit intermediate overflows, for any nibble, scale and history |
| `Adpcm.SmallIsSafe` | src/audio_core/codec.cpp:47-52 | it holds whenever |c1| + |c2| <= 49152 |
| `Adpcm.DecodingIsExact` | src/audio_core/codec.cpp:29-80 | with safe coefficients every sample and the final history are what they would be over the integers |
| `Adpcm.CodeOnBytes` | src/audio_core/codec.cpp:37-70 | the k-th code comes from byte 8 * (k / 14) as header and the half of byte 8 * (k / 14) + 1 + k % 14 / 2 that k's parity tells, high first, as a signed number, with the coefficient pair that bits 4 to 6 of the header name |
| `Adpcm.HistoryIsPrevious` | src/audio_core/codec.cpp:56-58 | the filter's history is the last two samples, or what there was before |
| `Adpcm.SampleOnBytes` | src/audio_core/codec.cpp:37-60 | with safe coefficients the k-th sample is the clamped floor of (nibble * 2^scale * 2048 + 1024 + c1 * y[k-1] + c2 * y[k-2]) / 2048, all of it read off the bytes |
| `Base64.EncodeBase64` | externals/httplib/httplib.h:2355-2381 | the encoding of every byte string although the accumulator wraps; a strict decoder recovers the input, and the length is 4 * ceil(n / 3) |
| `Base64.DecodeInvertsEncode` | externals/httplib/httplib.h:2355-2381 | the strict decoder of section 4 of RFC 4648 inverts the encoding |
| `Base64.EncodingIsUnique` | externals/httplib/httplib.h:2355-2381 | no other string decodes to the same bytes |
| `Base64.LowBits` | externals/httplib/httplib.h:2366-2371 | the bits that are read of the wrapped accumulator are those of the last bytes |
| `Base64.LettersAreEncoding` | externals/httplib/httplib.h:2365-2374 | letters emitted byte by byte are the letters of the three-byte groups |
| `Base64.LookupIsAlphabet` | externals/httplib/httplib.h:2356-2357 | the table is the alphabet of the RFC |
| `Text.TrimRange` | externals/httplib/httplib.h:2542-2551 | both loops run to the ends of the whole text, yet give the trimmed field, or an empty range exactly when the field is blank |
| `Text.Split` | externals/httplib/httplib.h:2570-2590 | calls back with every field that is not blank, trimmed, in order |
| `Text.PiecesOfJoin` | externals/httplib/httplib.h:2570-2590 | trimmed fields without the separator come back from their join |
| `Text.JoinOfFields` | externals/httplib/httplib.h:2570-2590 | joining the fields of a text gives the text |
| `Text.FromHexToI` | externals/httplib/httplib.h:2294-2309 | succeeds if and only if all the digits are there, with their value |
| `Text.FromIToHex` | externals/httplib/httplib.h:2311-2319 | the digits of the number |
| `Text.HexRoundTrip` | externals/httplib/httplib.h:2311-2319 | reading a printed number gives the number; no leading zero |
| `Query.Utf8RoundTrip` | externals/httplib/httplib.h:2321-2351 | a strict UTF-8 decoder inverts the encoding of every code point that is no surrogate; a surrogate, and nothing else, has no bytes |
| `Query.EncodeQueryParam` | externals/httplib/httplib.h:2434-2453 | the loop computes the percent encoding |
| `Query.DecodeUrl` | externals/httplib/httplib.h:2487-2522 | the loop computes the decoding, `%u` escapes, cut escapes and plus signs included |
| `Query.DecodedSegments` | externals/httplib/httplib.h:2487-2522 | a text of percent bytes, `%u` escapes, percent signs that start none and plain characters is decoded segment by segment, the plus sign to a blank only where asked for |
| `Query.PlusDecoded` | externals/httplib/httplib.h:2512-2516 | `a+b` decodes to `a b` with the flag and to itself without it |
| `Query.DecodingInvertsEncoding` | externals/httplib/httplib.h:2434-2522 | decoding inverts encoding on every string of bytes, whatever becomes of a plus sign |
| `Query.EncodedIsSafe` | externals/httplib/httplib.h:2434-2453 | an encoded text holds no separator, plus sign or blank |
| `Query.KeyValue` | externals/httplib/httplib.h:4287-4294 | the first piece is the key, the last of the others the value |
| `Query.LastValueCounts` | externals/httplib/httplib.h:4284-4298 | of several values behind one key the last one counts, and a key alone has an empty value |
| `Query.ParamsToQueryStr` | externals/httplib/httplib.h:4266-4276 | the pairs joined by ampersands |
| `Query.ParseQueryText` | externals/httplib/httplib.h:4278-4299 | every distinct piece with a key is inserted, decoded, behind the equal keys |
| `Query.QueryRoundTrip` | externals/httplib/httplib.h:4266-4299 | parsing a printed query gives its distinct pairs in order, for any byte-string values |
| `Query.DistinctKeeps` | externals/httplib/httplib.h:4278-4299 | which is the query itself where no pair is repeated |
| `Query.DistinctMembers` | externals/httplib/httplib.h:4279-4283 | exactly the pairs of the query, none twice |
| `Headers.CompareCaseIgnore` | externals/httplib/httplib.h:3747-3753 | equal up to the case of ASCII letters |
| `Headers.ParseHeader` | externals/httplib/httplib.h:3756-3790 | the name before the first colon and the trimmed, decoded value, of a line that has both, and nothing otherwise |
| `Headers.ParsedOfPrinted` | externals/httplib/httplib.h:3756-3790 | a printed name and value are read back |
| `Headers.EncodedValueIsRead` | externals/httplib/httplib.h:3756-3790 | a percent-encoded value of any bytes is read as those bytes, but that of `Location`, in any case, is left as it is |
| `Stream.SocketStream.Read` | externals/httplib/httplib.h:5424-5468 | the bytes returned are the next ones to come and only those are gone, whether they come from the buffer, a refill or the socket, in whatever pieces they arrive |
| `Stream.StreamLineReader.Append` | externals/httplib/httplib.h:2644-2655 | the line grows by one character across the switch from the fixed to the growing buffer |
| `Stream.StreamLineReader.GetLine` | externals/httplib/httplib.h:2618-2642 | the next line with its terminator, or the rest of the stream; false exactly at its end or on a failed receive |
| `Chunked.ReadContentWithLength` | externals/httplib/httplib.h:3831-3851 | what has gone from the stream has come to the receiver, up to the length, and the progress callback, if there is one, has been told ever larger parts of it, the whole last; either callback may stop the read |
| `Chunked.ReadContentChunked` | externals/httplib/httplib.h:3880-3932 | exactly what the reference reader makes of the bytes, content, trailer fields and success, unless a receive fails or the receiver refuses; then a prefix of the content and failure |
| `Chunked.ReadChunks` | externals/httplib/httplib.h:3892-3912 | the content of all chunks up to the last one's line |
| `Chunked.ReadTrailers` | externals/httplib/httplib.h:3914-3931 | the trailer fields up to the empty line, within the limit on lines |
| `Chunked.WriteData` | externals/httplib/httplib.h:4034-4042 | all bytes in order, in whatever pieces they are taken |
| `Chunked.ChunkedSink.Write` | externals/httplib/httplib.h:4135-4161 | a nonempty write is one chunk on the wire; an empty one is nothing, and leaves no data to come until something more is written |
| `Chunked.ChunkedSink.DoneWithTrailer` | externals/httplib/httplib.h:4165-4209 | the last chunk, the trailer fields and the empty line |
| `Chunked.WriteContentChunked` | externals/httplib/httplib.h:4127-4228 | the text of all actions of the calls made, and the outcome that the provider's answers give |
| `Chunked.ChunkRoundTrip` | externals/httplib/httplib.h:4147-4149 | a printed chunk is read as its data, and reading goes on behind it |
| `Chunked.SizeSpelled` | externals/httplib/httplib.h:3893-3896 | white space, a sign and `0x` in front of a size, digits in either case: all are read, a negative size wraps around and one that is too large is the largest number |
| `Chunked.ExtensionIsIgnored` | externals/httplib/httplib.h:3893-3898 | a chunk's line with an extension is read as one without |
| `Chunked.NoSizeFails` | externals/httplib/httplib.h:3895-3895 | a line that starts with no number ends the body, unaccepted |
| `Chunked.ShortChunkFails` | externals/httplib/httplib.h:3900-3904 | data that ends early is delivered but not accepted |
| `Chunked.BrokenChunkFails` | externals/httplib/httplib.h:3906-3906 | so is data with something on its line behind it |
| `Chunked.NoFieldIsSkipped` | externals/httplib/httplib.h:3916-3929 | a line among the trailer fields that is no field is passed over |
| `Chunked.LongFieldFails` | externals/httplib/httplib.h:3917-3917 | one that is longer than the limit ends the body, unaccepted |
| `Chunked.ChunkedRoundTrip` | externals/httplib/httplib.h:4127-4228 | any writes and one end, with or without trailer fields, are read as the concatenation of the writes and those fields, and what follows is left alone |
| `Chunked.ProviderRoundTrip` | externals/httplib/httplib.h:4127-4228 | for any writes, empty ones too, and one end, in any number of calls, the writer reports success, and what it sent is read as a body, with all the writes and the trailer fields, if and only if no call ends with an empty write; otherwise the reader gets the writes of the calls made and fails |
| `Chunked.CutShort` | externals/httplib/httplib.h:4213-4224 | the first call that ends with an empty write is the last one made, so the end is not carried out |
| `Chunked.RefusalCancels` | externals/httplib/httplib.h:4213-4220 | a provider that refuses cancels the body: what it has written is sent, and no further call is made |
| `Chunked.ShutdownLosesEnd` | externals/httplib/httplib.h:4213-4227 | an order to shut down is reported as success although the reader never accepts the body |
| `Chunked.UnendedBodyFails` | externals/httplib/httplib.h:3880-3912 | a body that is never ended is not accepted, though its content is delivered |
| `Chunked.EmptyWriteInside` | externals/httplib/httplib.h:4134-4136 | an empty write in the middle of a call does no harm |
| `Chunked.EmptyWriteAtEnd` | externals/httplib/httplib.h:4134-4136 | an empty write at the end of a call loses the end of the body |
| `MultipartParser.MultipartFormDataParser.BufFind` | externals/httplib/httplib.h:4573-4594 | the first occurrence in the buffer, or its size |
| `MultipartParser.MultipartFormDataParser.BufAppend` | externals/httplib/httplib.h:4596-4612 | the waiting bytes and then the new ones, across the move to the front and the resizing |
| `MultipartParser.MultipartFormDataParser.BufErase` | externals/httplib/httplib.h:4614-4614 | the waiting bytes without the first ones |
| `MultipartParser.ParseDispositionParams` | externals/httplib/httplib.h:4312-4334 | every distinct parameter without its quotes |
| `MultipartParser.MultipartFormDataParser.HeaderLine` | externals/httplib/httplib.h:4427-4475 | what a header line says of the file, and whether it is accepted |
| `MultipartParser.MultipartFormDataParser.InitialBoundary` | externals/httplib/httplib.h:4397-4404 | state 0 on the bytes that wait |
| `MultipartParser.MultipartFormDataParser.HeaderLines` | externals/httplib/httplib.h:4410-4480 | state 2 on the bytes that wait: all whole lines, the limit checked once |
| `MultipartParser.MultipartFormDataParser.Body` | externals/httplib/httplib.h:4481-4503 | state 3 on the bytes that wait, one delimiter's length kept back |
| `MultipartParser.MultipartFormDataParser.Boundary` | externals/httplib/httplib.h:4504-4518 | state 4 on the bytes that wait |
| `MultipartParser.MultipartFormDataParser.Parse` | externals/httplib/httplib.h:4390-4525 | one call refines the parser on values: same state, same callbacks, same answer; after a refused callback failure, not valid, and only callbacks of the specification |
| `MultipartSpec.IsMultipartBoundaryCharsValid` | externals/httplib/httplib.h:4653-4663 | true if and only if all characters are alphanumeric, `-` or `_` |
| `MultipartSpec.SerializeMultipartFormdata` | externals/httplib/httplib.h:4666-4708 | the text of all items, closed if asked for |
| `MultipartSpec.FirstOccurs` | externals/httplib/httplib.h:4573-4594 | an occurrence, and none before it |
| `MultipartBody.BodyIsExact` | externals/httplib/httplib.h:4481-4503 | from state 3, for every way the bytes arrive, the content told is what stands before the first delimiter, with no byte of it, or all but a delimiter's length while there is none |
| `MultipartBody.RunIsQuiet` | externals/httplib/httplib.h:4394-4525 | outside a body no content is told before a header |
| `MultipartBody.FirstByWhole` | externals/httplib/httplib.h:4573-4594 | a prefix of a text finds the text's first occurrence exactly when it holds all of it |
| `MultipartHeaders.DispositionTaken` | externals/httplib/httplib.h:4440-4473 | the disposition line that is printed tells the item's name and file name |
| `MultipartHeaders.ContentTypeTaken` | externals/httplib/httplib.h:4433-4437 | the type line that is printed tells its content type |
| `MultipartHeaders.ParamsRead` | externals/httplib/httplib.h:4312-4334 | the printed parameters are read as they were |
| `MultipartRoundTrip.SerializedText` | externals/httplib/httplib.h:4666-4708 | the text seen from the parser's side: an opening, then lines, content and delimiters in turn |
| `MultipartParts.DelimiterClear` | externals/httplib/httplib.h:4573-4594 | a delimiter cannot start within content that does not hold it |
| `MultipartParts.RunKeeps` | externals/httplib/httplib.h:4394-4525 | after every call what waits and what has not arrived is the rest of the message in the parser's state |
| `MultipartParts.MessageIsRead` | externals/httplib/httplib.h:4390-4525 | for every nonempty list of parts, each with any lines that tell of its item, and every cut that leaves the first delimiter whole, the callbacks are told exactly the items, in order, and the parser ends valid |
| `MultipartParts.StrayText` | externals/httplib/httplib.h:4504-4518 | behind a delimiter only a line end or two dashes lead on: anything else is never got past, however much arrives |
| `MultipartLines.HeaderTaken` | externals/httplib/httplib.h:4427-4475 | in any case and any order: a line with a name and a value that is neither a type nor a form-data disposition leaves the file as it was and is accepted; a type tells the type; a disposition tells the name and the file name, plain, percent encoded after `UTF-8''`, or both, where the encoded one counts |
| `MultipartLines.SentPartsAreRead` | externals/httplib/httplib.h:4390-4525 | the round trip for messages whose parts carry any list of such lines: exactly what the lines say and the contents arrive, in order, and the parser ends valid |
| `MultipartLines.EncodedNameIsRead` | externals/httplib/httplib.h:4456-4473 | every file name of bytes can be sent percent encoded and is recovered |
| `MultipartLines.LookupRead` | externals/httplib/httplib.h:4312-4334 | each parameter of a disposition is found under its key, and nothing else is |
| `MultipartLines.BadLineIsRefused` | externals/httplib/httplib.h:4427-4473 | a line without a colon, a name or a value, a form-data disposition without a name, or with a file name in another encoding, ends the call: nothing is told of it and the parser is not valid |
| `MultipartLines.LongLineIsRefused` | externals/httplib/httplib.h:4411-4412 | where the header lines go on in a call, a line that is longer than the limit ends the call |
| `MultipartLines.LongLineIsTaken` | externals/httplib/httplib.h:4411-4480 | but one of any length is taken when it comes behind another in the same call |
| `MultipartRoundTrip.MultipartRoundTrip` | externals/httplib/httplib.h:4390-4525 | for every nonempty list of sendable items and every cut that leaves the first delimiter whole, the callbacks are told exactly the items, in order, and the parser ends valid |
| `MultipartCut.PieceIsLost` | externals/httplib/httplib.h:4397-4399 | before the first delimiter a piece that does not hold all of it is lost |
| `MultipartCut.NothingIsDelivered` | externals/httplib/httplib.h:4397-4399 | pieces that never hold it deliver nothing, and the parser does not end valid |
| `MultipartCut.LaterDelimiter` | externals/httplib/httplib.h:4573-4594 | a delimiter behind the one that ends an item's content leaves a next item, and at most that item's content with its line end before it |
| `MultipartCut.LaterOpening` | externals/httplib/httplib.h:4397-4404 | the line of a first delimiter that stands further on in the message leaves at most the first item's content with its line end, or ends that item's content type |
| `MultipartCut.StepLate` | externals/httplib/httplib.h:4394-4525 | every round keeps a parser that started late behind: less of the message is left than the items still to be told need, if in the end exactly the items are to be told |
| `MultipartCut.LateThen` | externals/httplib/httplib.h:4390-4525 | so a parser that started late and told exactly the items never ends valid, however the rest of the message arrives |
| `MultipartCut.RoundTripExactly` | externals/httplib/httplib.h:4390-4525 | for every nonempty list of sendable items and every cut of their text, the items are told and the parser ends valid if and only if the first piece that is not empty holds all of the first delimiter |

## Left out

- GetoptScanner.Scanner.ScanAll: assumes that no long option has the value -1, which the source cannot tell from its own end mark, and that the caller does not move `optind`.
- GetoptScanner: the wide-character half (a copy), error printing and the `ambig_set` it prints from, `optopt` where no code path reads it back, and `getenv`, which is a boolean input; characters are below 0x80.
- GetoptLayout.LineRun: option strings whose letters are `:` or `;`, such as `a:::`, which declare nothing that a caller could mean.
- SpscQueue: weak memory orderings, placement construction as anything but a slot write, and the condition-variable polyfill for stop tokens; every stoppable pop has a token of its own, requested before the call or by a step at any time.
- MpmcQueue: `MPSCQueue` (lines 165-203 of the same file) is the case with a single reader and has no members of its own here.
- ThreadPool: jobs that throw; destruction of the pool without `shutdown`.
- ClientSocket: TLS, the destructor, redirects and what a handler does with the socket other than nested sends, closing and leaving.
- Interpolate.StepOverSamples: takes the integer step as given, since the conversion from a floating-point rate is a rounding question of its own.
- Adpcm.DecodeADPCM: where a coefficient pair is not safe the original's overflow is undefined; the model wraps.
- Base64.EncodeBase64: shifts of an overflowed accumulator wrap, as they do since C++20.
- Text.Split: the overload with a limit on the number of fields, which no modelled caller uses.
- Query.QueryRoundTrip: keys must need no encoding, since the printer does not encode keys; values are any bytes.
- Headers.ParseHeader: reading a whole header section, and the case-insensitive order of the header map; trailer fields are kept in the order of arrival.
- Stream: system calls, timeouts and `select`, which are the choices of `Recv` and `Read`.
- Chunked.WriteContentChunked: compressors other than the one that passes data through; the provider is a list of calls, whose end stands for the order to shut down.
- Chunked.ChunkedRoundTrip: trailer values must be trimmed, fit in a line and hold no percent sign, because the reader decodes header values.
- MultipartParser: `std::regex` is replaced by prefix matching with the same groups; the boundary is set before the first call.
- MultipartRoundTrip.MultipartRoundTrip: names and file names hold no `;`, `=`, CR or LF, since the printer does not quote them; content types are trimmed; lines are shorter than the limit; nothing follows the closing delimiter but its line end.
- MultipartCut.RoundTripExactly: is about the same items.
- MultipartLines.SentPartsAreRead: contents do not hold the delimiter; a disposition's parameters are `name`, `filename` and `filename*` in that order; a type and the values stand behind one blank; lines are shorter than the limit.
- Byte ranges, redirects, proxies, authentication, compression and servers of the HTTP library.
- Time stretching, sinks, PCM decoding and everything else of the audio core; the rest of the emulator.
