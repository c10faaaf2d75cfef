# Verified models of the algorithms in CN

The repository is a collection of networking exercises in C and C++. This project models the five
pieces of it that are algorithms rather than plumbing, and proves what they are for:

- **CRC** (`errcorrection/crc1.c`, `errcorrection/crc.c`): division over GF(2) by a shift register,
  the transmitted frame, and the receiver's verdict. `Sequences`, `BitSequences` and `Polynomials`
  hold the algebra, `CrcCode` the code and the errors it detects, `ShiftRegisterCrc` and `StringCrc` the loops
  of the two programs.
- **Hamming code** (`errcorrection/hamming.cpp`): placement, parity fill, recheck and error position.
  `BinaryNumbers` has binary digits and exclusive or of numbers, `HammingCode` the code,
  `HammingProgram` the loops.
- **Ticket cascade** (`unixsockets/csemulti`): the counter TC and the servers C, S and E. `Cascade` is
  the state machine, `CascadeProperties` what holds in every run, `TicketSystem` the processes' loop
  bodies as methods that change the state.
- **Heap** (`mid/heap.c`): `HeapOrder` has the order on sequences, `BinaryHeap` the array heap, runs
  of operations, and heapsort.
- **Internet checksum** (`tcp_injection/TCP-Packet-Injection.c`, `rawsockets/basic`): `OnesComplement`
  is the arithmetic of RFC 1071, `InternetChecksum` the routines.

`dafny verify dfyconfig.toml` checks everything.

## How the models relate to the programs

Loops over arrays are methods with the same loops over Dafny arrays; each method's contract equates
the result with a function, and the theorems are about those functions. Fixed array lengths and
small constants (degrees, server capacities, frame width) are parameters. Where a program repeats
the same inner loop, the model has it once as a method.

Where the code differs from what it announces, the model follows the code:

- `hamming.cpp:186` assigns where it should compare, so the "changed" bit always becomes 0.
  `ChangeBit` does the same, and `ClearedBitLocatedIff` says exactly when the error is then located.
  The theorems about real flips are stated for `Flip` and `FlipAll`, and `FlipAndLocate` is the program
  with the comparison.
- `crc1.c:77-83` does not compare the received frame's degree m with the generator's degree n. `Receive`
  covers both cases, and `VerdictRightFromDegree` proves that, whatever the array holds, the verdict is
  right exactly when m >= n; `ShortFramePasses` is an instance of the other case.
- `crc.c` accepts any key. Its loop is modelled for every binary key; `DivisionByAnyKey` shows that it
  divides by the key with its first character read as 1, and `DivisionIdentityIff` says
  exactly when what it prints is a quotient and remainder; `KeyWithoutLeadingOne` is a failing input.
- The sentinel of `heap.c:8` is one above INT_MIN; `InsertDivergesIff` shows that `Insert` then runs
  forever exactly for elements below the sentinel (`IntMinRisesForever` is the case), which is why
  `Insert` requires the others.
- The fixed two-fold `csum` is right on all buffers of n words exactly up to n = 65538.
- `ComputeChecksum` is modelled with a 64-bit `long`, although its comment speaks of 32 bits.

## Model

| member | source | states |
|---|---|---|
| Polynomials.DivisionIdentity | errcorrection/crc1.c:34-55 | padded frame = quotient * generator + remainder, with the remainder of degree below n |
| Polynomials.DivisionUnique | errcorrection/crc1.c:34-65 | no other quotient and remainder satisfy the identity |
| Polynomials.DivisionStep | errcorrection/crc1.c:36-53 | one pass of the loop (shift in, test the top bit, subtract) keeps the identity |
| Polynomials.DivisionIdentityIff | errcorrection/crc.c:28-49 | for an arbitrary key the identity holds exactly when the key starts with 1 or only zeros precede the last n bits |
| Polynomials.KeyWithoutLeadingOne | errcorrection/crc.c:28-49 | a message and key for which what is printed is no quotient and remainder |
| Polynomials.DivisionByAnyKey | errcorrection/crc.c:28-49 | whatever the key, what is printed is the division by the key with its first bit read as a one |
| CrcCode.AcceptsIffDivides | errcorrection/crc1.c:81-125 | "No Error" is printed exactly for polynomial multiples of the generator |
| CrcCode.RoundTrip | errcorrection/crc1.c:67-125 | every transmitted frame is accepted by the receiver |
| CrcCode.AcceptedFramesAreSent | errcorrection/crc1.c:67-125 | the receiver accepts only frames that the sender would transmit for their first m+1 bits |
| CrcCode.VerdictOnErrors | errcorrection/crc1.c:81-125 | a transmitted frame XOR an error pattern is accepted exactly when the pattern is a multiple of the generator, whatever the frame |
| CrcCode.BurstDetected | errcorrection/crc1.c:22-125 | every non-zero error within n consecutive positions is reported |
| CrcCode.ProperIffBurstsDetected | errcorrection/crc1.c:22-26 | among generators that start with a one, the test of the outer bits passes exactly those under which every burst within n positions is reported |
| CrcCode.WiderBurst | errcorrection/crc1.c:22-125 | among errors within n+1 positions exactly the generator itself is missed, so the burst bound is tight |
| CrcCode.OddErrorsDetectedIff | errcorrection/crc1.c:81-125 | all errors of odd weight are reported exactly when the generator has an even number of ones |
| CrcCode.PositionIndependence | errcorrection/crc1.c:81-125 | moving an error pattern along the frame does not change whether it is noticed |
| CrcCode.DoubleErrorDetectedIff | errcorrection/crc1.c:81-125 | two wrong bits at distance d are missed exactly when the generator divides x^d + 1 |
| ShiftRegisterCrc.Divide | errcorrection/crc1.c:34-55 | the in-place loop leaves the quotient in div, the remainder in r[1..n] and, if the generator starts with 1, a zero in r[0]; it is skipped for a dividend shorter than the generator |
| ShiftRegisterCrc.Send | errcorrection/crc1.c:22-73 | accepts exactly generators of degree at most m whose first and last bit are ones; then divides the padded frame, overwrites the tail of a by the remainder and touches nothing else |
| ShiftRegisterCrc.Receive | errcorrection/crc1.c:81-125 | printed quotient, remainder and verdict for every received degree, including one below n: from n on a division of the received frame, and "No Error" exactly for a zero remainder |
| ShiftRegisterCrc.SendAndReceive | errcorrection/crc1.c:22-125 | sender, error pattern and receiver composed: "No Error" exactly when the pattern is a multiple of the generator |
| ShiftRegisterCrc.VerdictRightIff | errcorrection/crc1.c:77-125 | the verdict on a received frame agrees with being a multiple of the generator for every degree from n on, and below n exactly when old array contents happen to agree with the frame |
| ShiftRegisterCrc.VerdictRightFromDegree | errcorrection/crc1.c:77-125 | for every proper generator the verdict on frames of degree m is right for all array contents exactly when m >= n |
| CrcCode.MultipleOfWithLeadingZeros | errcorrection/crc1.c:81-125 | what counts as a multiple of the generator, also for frames shorter than it, does not depend on leading zeros |
| ShiftRegisterCrc.ShortFramePasses | errcorrection/crc1.c:77-83 | a received frame shorter than the generator that is no multiple of it and yet gets "No Error" |
| StringCrc.Subtract | errcorrection/crc.c:37-43 | comparing characters from the right is the XOR with the top bit dropped |
| StringCrc.Pass | errcorrection/crc.c:28-47 | one pass advances register and quotient by one message bit, for the differently aligned buffer |
| StringCrc.Encode | errcorrection/crc.c:15-66 | for every key the printed quotient and remainder divide the padded message by the key with its first character read as 1, and the final data is the message followed by that remainder |
| StringCrc.CompareWithShiftRegister | errcorrection/crc.c:19-66 | crc1.c takes the generator exactly when m >= n and the outer characters of the key are 1, and then both programs print the same quotient, remainder and frame |
| BinaryNumbers.BitByDivision | errcorrection/hamming.cpp:116-136 | the digit found by repeated halving is (i / 2^s) mod 2 |
| BinaryNumbers.SumOfDigits | errcorrection/hamming.cpp:306-315 | adding the weights of the ones among the digits gives the number |
| HammingCode.SyndromeDigit | errcorrection/hamming.cpp:235-291 | the parity of group s is digit s of the exclusive or of all positions that hold a one |
| HammingCode.PositionIsSyndrome | errcorrection/hamming.cpp:306-315 | the computed ep is that exclusive or, for every frame |
| HammingCode.ZeroSyndromeIff | errcorrection/hamming.cpp:206-315 | ep is 0 exactly when every group has even parity |
| HammingCode.SingleErrorLocated | errcorrection/hamming.cpp:183-315 | for one flipped bit ep is its position, and flipping position ep restores the frame |
| HammingCode.CorrectionUnique | errcorrection/hamming.cpp:206-315 | for every received frame, flipping one bit gives a codeword exactly when it is the bit at position ep |
| HammingCode.ErrorsLocated | errcorrection/hamming.cpp:206-315 | for any set of flipped bits ep is the exclusive or of their positions, and the errors form another codeword exactly when that is 0 |
| HammingCode.DoubleErrorNoticed | errcorrection/hamming.cpp:206-315 | for two flipped bits ep is neither 0 nor one of the two |
| HammingCode.ClearedBitLocatedIff | errcorrection/hamming.cpp:183-193 | with the assignment of line 186, ep is eb exactly when that bit was a one and 0 exactly when it was a zero |
| HammingCode.ClearedZeroIsMissed | errcorrection/hamming.cpp:183-193 | a frame and position where the announced change is not located |
| HammingCode.MinimumDistance | errcorrection/hamming.cpp:82-175 | different codewords differ in at least three positions |
| HammingCode.DistanceAttained | errcorrection/hamming.cpp:82-175 | for l >= 3 every codeword has another at distance exactly three |
| HammingCode.EncodingsFarApart | errcorrection/hamming.cpp:49-175 | frames of different data words differ in at least three positions |
| HammingCode.EncodingUnique | errcorrection/hamming.cpp:49-175 | the data and even parity determine every bit of the frame |
| HammingCode.EncodingCorrect | errcorrection/hamming.cpp:82-175 | the filled frame has even parity in every group and still spells the data at the other positions |
| HammingCode.DataInOrder | errcorrection/hamming.cpp:49-66 | position i between the check positions 2^s and 2^(s+1) holds data bit i - s - 2 |
| HammingCode.FewestCheckBits | errcorrection/hamming.cpp:49-66 | 2^r >= m + r + 1 holds exactly for r >= nrb |
| HammingProgram.Place | errcorrection/hamming.cpp:42-66 | data in order between positions marked -1 at the powers of two; l = m + nrb < k = 2^nrb |
| HammingProgram.Digits | errcorrection/hamming.cpp:110-136 | a1 holds a one exactly at the digits that are ones, and -1 exactly above the highest one |
| HammingProgram.CountGroup | errcorrection/hamming.cpp:105-149 | the counter ends as the number of ones in the group |
| HammingProgram.FillParity | errcorrection/hamming.cpp:79-175 | filling in place equals computing all parities from the placed frame, in spite of the overwriting |
| HammingProgram.ChangeBit | errcorrection/hamming.cpp:186-193 | the bit is 0 afterwards |
| HammingProgram.Recheck | errcorrection/hamming.cpp:206-298 | rb holds the parities of the frame as received, although the check positions are overwritten meanwhile |
| HammingProgram.ErrorPosition | errcorrection/hamming.cpp:306-315 | ep is the exclusive or of the positions of ones in the received frame |
| HammingProgram.Encode | errcorrection/hamming.cpp:42-175 | the frame has even parity in every group, the data stands in order between the check positions, and their number is the least that the Hamming bound allows |
| HammingProgram.Locate | errcorrection/hamming.cpp:204-315 | recheck and position together give that exclusive or, whatever happened to the frame, which ends up with its check bits recomputed |
| HammingProgram.CorruptAndLocate | errcorrection/hamming.cpp:177-317 | what the program prints as the error position, and the frame it leaves, for every entered eb |
| HammingProgram.FlipAndLocate | errcorrection/hamming.cpp:42-317 | with the comparison announced in line 186 and the least number of check bits, ep is eb and flipping position ep gives back the frame that was sent |
| CascadeProperties.NextKeepsInv | unixsockets/csemulti/s.c:168-206 | each step of any process keeps capacity, routing and per-service order |
| CascadeProperties.InvAlways | unixsockets/csemulti/tc.c:119-133 | the invariant holds after every schedule |
| CascadeProperties.EverybodyAccepted | unixsockets/csemulti/tc.c:119-133 | the accepted clients are a prefix of those who connected, and all of them unless E has shut down |
| CascadeProperties.ShutdownIsFinal | unixsockets/csemulti/e.c:142-175 | after the shutdown nothing changes any more |
| CascadeProperties.NobodyLost | unixsockets/csemulti/tc.c:119-133 | every client is found in the system exactly as often as it was accepted, and without a shutdown as often as it connected |
| CascadeProperties.NobodySentOnEarly | unixsockets/csemulti/c.c:143-155 | a client is past C, or past S, only if that server is full; no server exceeds its capacity |
| CascadeProperties.FirstComeFirstServed | unixsockets/csemulti/c.c:143-155 | each server's own clients are served in the order in which they connected, without gaps |
| CascadeProperties.DemandBounds | unixsockets/csemulti/e.c:141-175 | in every reachable state, what has reached a server is bounded by the demand on it |
| CascadeProperties.Outcome | unixsockets/csemulti/e.c:141-175 | a finished run is shut down exactly when the demand on E by those who connected exceeds its capacity; otherwise the occupancies are min(x1,capC), min(x2+excess of C,capS) and the remaining demand |
| CascadeProperties.ScheduleIndependence | unixsockets/csemulti/s.c:168-206 | finished runs to which equally many clients of each class connect (or in which as many are accepted) end alike, whatever the interleaving; with the same clients for C, C serves the same ones |
| CascadeProperties.RunsEnd | unixsockets/csemulti/s.c:169-206 | without arrivals, the number of server steps is bounded by the weighted number of queued clients |
| CascadeProperties.StuckIffEnded | unixsockets/csemulti/e.c:142-175 | no server can step exactly when E has shut down or all channels are empty |
| CascadeProperties.EveryRunEnds | unixsockets/csemulti/e.c:142-175 | once arrivals stop the servers can reach an end, stop exactly there after boundedly many steps, and every end is the one determined by the clients that connected |
| TicketSystem.Processes.AcceptClient | unixsockets/csemulti/tc.c:119-133 | an accepted client is appended to the channel of its service, or kept if the service is unknown, and no other channel changes |
| TicketSystem.Processes.LoopC | unixsockets/csemulti/c.c:144-155 | takes the oldest client, serves it below capacity, forwards it to S otherwise |
| TicketSystem.Processes.LoopS | unixsockets/csemulti/s.c:169-206 | takes the oldest client of TC's channel if that socket is ready, else of C's if that one is, serves it below capacity and forwards it to E otherwise |
| TicketSystem.Processes.LoopE | unixsockets/csemulti/e.c:142-175 | the same with shutdown instead of forwarding |
| TicketSystem.Processes.Perform | unixsockets/csemulti/s.c:169-206 | an event takes one client from the channel it names and leaves the servers and channels it does not concern alone; when the channel is empty nothing changes |
| TicketSystem.Simulate | unixsockets/csemulti/tc.c:57-133 | processes driven by any schedule reach exactly the state of the state machine; it satisfies the invariant, and everyone who connected before a shutdown was accepted |
| HeapOrder.RootIsMinimum | mid/heap.c:27-27 | heap order makes the root the least element |
| HeapOrder.PercolateUp | mid/heap.c:16-20 | moving the hole to the parent keeps order and elements |
| HeapOrder.PercolateDown | mid/heap.c:30-51 | moving the hole to the smaller child keeps order and elements |
| HeapOrder.InsertDivergesIff | mid/heap.c:16-20 | the loop of Insert never ends exactly for elements below the sentinel |
| BinaryHeap.IntMinRisesForever | mid/heap.c:16-20 | INT_MIN inserted into an empty heap keeps the loop of Insert running |
| BinaryHeap.Heap.constructor | mid/heap.c:5-9 | an empty heap with the sentinel in place |
| BinaryHeap.Heap.Insert | mid/heap.c:10-22 | for every int from -INT_MAX on, heap order is kept and exactly the element is added |
| BinaryHeap.Heap.SmallerChild | mid/heap.c:34-40 | the chosen child is the least one, also without a sibling |
| BinaryHeap.Heap.DeleteMin | mid/heap.c:23-54 | returns the minimum of the contents and removes one copy of it |
| BinaryHeap.Perform | mid/heap.c:5-54 | over every legal run each answer is the least of what was put in and not yet taken, in order, and the heap holds the rest |
| BinaryHeap.TakenIsRight | mid/heap.c:23-54 | for a legal run exactly one list of answers has each answer the least of what was put in and not yet taken |
| BinaryHeap.TakenAndHeld | mid/heap.c:5-54 | what is put in is taken out or held, and there is one answer for every DeleteMin |
| BinaryHeap.LegalIff | mid/heap.c:10-54 | a run is legal exactly when it inserts nothing below -INT_MAX and never takes more than was put in |
| BinaryHeap.HeapSort | mid/heap.c:55-72 | what is printed is the input, sorted, for all ints from -INT_MAX on |
| OnesComplement.OnesSumFolds | tcp_injection/TCP-Packet-Injection.c:139-150 | the one's-complement sum of RFC 1071 is what the plain sum folds to |
| OnesComplement.FoldKeeps | tcp_injection/TCP-Packet-Injection.c:149-150 | a fold keeps that value and makes progress while there is a carry |
| InternetChecksum.HighBit | tcp_injection/TCP-Packet-Injection.c:139-144 | the bit test fires exactly from 2^31 on, and the fold brings the sum below 2^31 again |
| InternetChecksum.ComputeChecksum | tcp_injection/TCP-Packet-Injection.c:134-153 | the complement of the RFC 1071 sum for every length; the closing loop folds at most twice |
| InternetChecksum.ChecksumMeaning | tcp_injection/TCP-Packet-Injection.c:134-153 | checksum and bytes, those at odd offsets weighted by 256, add up to 0 modulo 65535, and the checksum is 0xFFFF exactly for all zeros |
| InternetChecksum.Csum | rawsockets/basic/client.c:51-59 | the RFC 1071 checksum exactly when the second fold leaves no carry, in particular up to 65538 words, and one more than it otherwise; server.c:42-50 is the same routine |
| InternetChecksum.CsumCorrectIff | rawsockets/basic/client.c:51-59 | csum agrees with RFC 1071 exactly when the second fold leaves no carry |
| InternetChecksum.CsumCorrectUpTo | rawsockets/basic/server.c:42-50 | csum agrees with RFC 1071, and so with ComputeChecksum, on all buffers of n words exactly for n <= 65538 |
| InternetChecksum.SameChecksumIff | tcp_injection/TCP-Packet-Injection.c:134-153 | two buffers have the same checksum exactly when their word sums are congruent modulo 65535 and both or neither are all zero |
| InternetChecksum.FieldVerifiesIff | tcp_injection/TCP-Packet-Injection.c:170-178 | recomputing gives 0 exactly for the stored checksum, or for the other zero |
| InternetChecksum.WordErrorMissedIff | tcp_injection/TCP-Packet-Injection.c:134-153 | a change of one aligned word goes unnoticed only as an exchange of 0x0000 and 0xFFFF |
| InternetChecksum.FillChecksumField | tcp_injection/TCP-Packet-Injection.c:170-178 | the field holds exactly the checksum taken with the field zeroed, nothing else has changed, and the buffer verifies |
| InternetChecksum.ByteOrderIrrelevant | tcp_injection/TCP-Packet-Injection.c:134-153 | the little-endian routine stores the same bytes as the network-order sum, for every length |

## Left out

- Everything else in the repository: sockets, FIFOs, polling, fork and exec, signals, shared memory, RPC, and the chat, log, FTP and studio programs are I/O.
- Console input and output: what is entered becomes parameters, what is printed becomes results; the reversals for display are dropped.
- CRC coefficients other than 0 and 1, and characters other than '0' and '1': `crc1.c` and `crc.c` do not check them.
- Encode: `strcpy` is modelled as copying keylen characters; the terminating NUL, and an empty key, are not part of the model.
- Buffer overflow of the fixed arrays (`a[16]`, `db[30]`, `a1[4]`, `rb[8]`, `heap[1000000]`): lengths are preconditions or as large as needed.
- Place: data bits are 0 or 1; the redundancy count that the program asks for is never used by it.
- LoopS: which sockets are readable is a parameter, so that every outcome of `poll` is covered; a failing `recvmsg` is not.
- LoopE: E's exit ends the run; what C, S and TC still do before the signal arrives is not modelled.
- Descriptor passing is appending to a queue; the threads, and the descriptor variable they share with the loop, are not modelled.
- DeleteMin: requires a non-empty heap; on an empty one the program reads outside the heap.
- ComputeChecksum: a negative length is not modelled; `sum` is a mathematical integer, which HighBit shows to stay within a 64-bit long.
- FillChecksumField: the TCP checksum is stored in the original header rather than in the summed copy; the model stores it in the summed buffer.
- Csum: that `client.c` and `server.c` pass a byte count where words are counted is a matter of the callers; the `int` bound on the length keeps the sum below 2^47, so the 64-bit sum cannot wrap.
