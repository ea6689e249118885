# Verified models of the algorithmic programs

The repository is a collection of small C and C++ programs. This project models in Dafny those of
them that hold real algorithms, one or a few modules per source file, and proves what their
comments, their headers or their use promise. `dafny verify dfyconfig.toml` checks everything.

| module | source | what is modelled |
|---|---|---|
| `IpRange`, `CidrJoin` | `ip_range.c` | splitting an address range into CIDR blocks, joining networks into ranges |
| `Mt19937`, `Genrand`, `GenrandKey` | `mt19937ar.c` | the Mersenne Twister recurrence, and the generator that rewrites its state array in place |
| `Bitlist`, `BitlistText`, `BitlistGrammar`, `BitlistFaults`, `BitlistPrint`, `BitlistFull`, `BitlistPages`, `Decimal` | `bitlist.c` | bit lists with a search cursor, the resumable printer and its parser |
| `HeaderPredict` | `test_assembly.cpp` | TCP header prediction with SIMD compares and don't-care masks |
| `Bpf`, `StunFilters` | `sniff_stun.c`, `raw_pf_stun.c` | a classic BPF machine and the two STUN filters |
| `TimerSpec`, `TimerLaws`, `Timers` | `multimer.c` | the timer queue and its free list, with re-entrant handlers |
| `DirMonitor` | `dir_monitor_impl.hpp` | the event queue under a mutex and a condition variable, as interleaved steps |
| `DList` | `MyDList.hpp` | the intrusive ring list |
| `Checksum`, `UdpChecksum` | `rawudp.c`, `test_packet.c` | the Internet checksum of RFC 1071 |
| `Hash`, `HashTable` | `hash.c` | the folded hash, the table size, the chained table |
| `Netlink` | `libnetlink.c` | building and parsing netlink attributes (section 2.2 of RFC 3549) |
| `CircBuffer` | `circ_buffer.c` | the circular buffer as a bounded queue |
| `SortedArray` | `sorted_array.c` | searching, extending and comparing sorted arrays |
| `Words` | | C operators on unsigned words as arithmetic on numbers |

Loops and objects that the source updates in place are methods, with loops, over arrays, fields
and linked nodes. Each is tied by its contract to a function or predicate on values, and the
theorems are lemmas about those. What is printed, written or passed to a callback is an output
sequence or a field that grows.

How the source's numbers are modelled: unsigned 32-bit words are numbers below 2^32 with the C
operators of `Words`, or `bv32` where only bit patterns matter; truncation and wrap-around are
written out where they can happen. Shift counts are taken modulo 32, as x86 does.

Where the code and its documentation differ, the code is followed:

- The example in `bitlist.h` says the first page of its list resumes at 7; the code returns 8,
  because it resumes behind the first number of the run that did not fit (`BitlistFull.HeaderExample`).
- The comment above `timer_set` says a zero interval cancels; the code cancels on a null pointer
  (`TimerSpec.CancelsIff`), and a zero interval sets a timer that is due at once
  (`TimerSpec.ZeroIsDueAtOnce`).
- The comment of `sorted_array_partial_compare` asks for sorted arrays; `SortedArray.DecidesSubset`
  shows that the first has to be strictly increasing.
- `hash.c` promises a power of two from nel on; `Hash.SizeIsLeast` gives the sizes for which the
  `int` shift delivers it, and `Hash.HashDefinedIff` those for which the hash, which takes the size
  as an `int`, is defined.

The macros `NLMSG_ALIGN`, `RTA_ALIGN`, `RTA_OK` and `RTA_NEXT` come from the Linux headers, which
are not part of this model; `Netlink` states them in its own terms.

## Model

| member | source | states |
|---|---|---|
| `IpRange.MaskArithmetic` | ip_range.c:67-94 | For prefixes 0 to 32, network and broadcast are the first and the last address of the one CIDR block of that prefix around the address, and an address is its own network exactly when it is such a block's start. |
| `IpRange.NestedOrDisjoint` | ip_range.c:276-301 | Two CIDR blocks never overlap partially: the one with the longer prefix lies inside the other, or they are apart. |
| `IpRange.Halves` | ip_range.c:54-61 | set_bit on the bit behind the prefix yields the start of the upper half of the block; the two halves are CIDR blocks that make up the block. |
| `IpRange.SplitCases` | ip_range.c:121-157 | A call on a range strictly within a block goes on in the lower half, in the upper half, or in both with the range cut between them, and in no other way. |
| `IpRange.SplitCorrect` | ip_range.c:121-157 | From any enclosing block, split_range prints CIDR blocks that follow one another without gap or overlap from lo to hi, and every CIDR block inside the range lies inside a printed one; it never takes an error exit. |
| `IpRange.SplitRoot` | ip_range.c:121-157 | The same for split_range(0, 0, lo, hi) with any lo <= hi. |
| `IpRange.TilesAscend` | ip_range.c:139-155 | Printed blocks are ascending and pairwise disjoint. |
| `IpRange.TilesCover` | ip_range.c:139-155 | An address lies in a printed block if and only if it lies between lo and hi. |
| `IpRange.LeastCount` | ip_range.c:121-157 | Pairwise disjoint blocks are no more numerous than any CIDR blocks of at least that union each of which lies inside one of them. |
| `IpRange.SplitMinimum` | ip_range.c:113-157 | No list of CIDR blocks with the union lo to hi is shorter than what split_range prints. |
| `IpRange.SplitDepth` | ip_range.c:119-157 | A call that ends normally recurses at most 32 less its prefix levels deep. |
| `IpRange.SplitCost` | ip_range.c:116-120 | For every lo <= hi: at most 62 blocks, 125 calls and 32 levels. |
| `IpRange.AllButOneCost` | ip_range.c:121-157 | A block without its first or without its last address costs exactly one printed block, two calls and one level for each bit behind its prefix. |
| `IpRange.SplitWorstCase` | ip_range.c:116-120 | 0.0.0.1 to 255.255.255.254 attains all three bounds. |
| `IpRange.SplitReversed` | ip_range.c:125-137 | With lo above hi every call ends in an error exit, and nothing is printed. |
| `CidrJoin.QSortSorted` | ip_range.c:209-223 | Sorting by compar_netaddr orders by address, then by prefix. |
| `CidrJoin.AnySort` | ip_range.c:276 | Whatever sorts the networks by compar_netaddr yields the same list as the sort modelled. |
| `CidrJoin.NoPartialOverlap` | ip_range.c:282-301 | A network that sorts later and ends later begins behind the end of the earlier one: why the merge loop needs no case for partial overlap. |
| `CidrJoin.NetaddrToRange` | ip_range.c:248-308 | With -j every line printed is a range from low to high, the ranges ascend and are never adjacent, and an address lies in one of them if and only if it lies in an input network. With -J every line is a masked network, they ascend and are apart, they hold exactly the addresses of the input, and no CIDR cover of the input has fewer networks than lines are printed. |
| `CidrJoin.SeparatedUnique` | ip_range.c:282-301 | There is only one such list of ranges for a set of addresses: the maximal intervals of the union. |
| `CidrJoin.BlocksOfLeast` | ip_range.c:293-306 | The blocks printed for separated ranges are CIDR blocks, pairwise disjoint, and hold every CIDR block that lies within one of the ranges. |
| `CidrJoin.JoinMinimum` | ip_range.c:293-306 | With -J the blocks printed cover exactly the union, and no CIDR cover of the union is shorter. |
| `Mt19937.TemperBijective` | mt19937ar.c:130-136 | Tempering is a bijection on 32-bit words, with an inverse given that has its shifts and masks written out once more. |
| `Mt19937.StepBijective` | mt19937ar.c:113-123 | One step of the recurrence is a bijection on the 19937-bit state, the top bit of one word and the next 623 words, with an inverse given that has its own matrix, masks and positions. |
| `Mt19937.ZeroOnlyFromZero` | mt19937ar.c:113-123 | The step leads to the zero state from the zero state and from no other. |
| `Mt19937.NeverZero` | mt19937ar.c:102-137 | A state that is not zero where the recurrence looks never becomes so. |
| `Mt19937.SomeWordNonzero` | mt19937ar.c:102-137 | Every block of 624 words of such a sequence holds a word that is not zero. |
| `Genrand.SeedStateNonzero` | mt19937ar.c:57-70 | No seed gives init_genrand a state that is zero where the recurrence looks. |
| `Genrand.KeyStateNonzero` | mt19937ar.c:75-99 | No non-empty key gives init_by_array such a state. |
| `Genrand.RewriteStep` | mt19937ar.c:113-124 | The words that the three loops read in the half rewritten array, old, new or mt[0], are those the recurrence names, and the word written is the recurrence's next. |
| `Genrand.Generator.InitGenrand` | mt19937ar.c:57-70 | The array holds the seeded state, nothing drawn. |
| `Genrand.Generator.InitByArray` | mt19937ar.c:75-99 | For keys shorter and longer than 624 words the array holds, behind the forced first word, the last 623 words of one recurrence: each is mixed from the word 623 steps before, the word just before, and a word of the key and its index, or, in the last 623 steps, its own index. |
| `GenrandKey.KeyUnmixMix` | mt19937ar.c:83-84 | The word of the key comes back from a mixed word, with the constants of the mixing written out once more. |
| `GenrandKey.CutIs` | mt19937ar.c:83-84 | Indices below 2^32 are mixed in as they are. |
| `GenrandKey.IndexUnmixMix` | mt19937ar.c:91-92 | So does, from a word of the second loop, the word it replaced. |
| `GenrandKey.KnownSeedWords` | mt19937ar.c:59-67 | The first four words of the default seeding. |
| `GenrandKey.KeyLeft` | mt19937ar.c:79-89 | For keys of at most 623 words, the array left by the first key_length steps of the first loop gives the key back, word by word. |
| `GenrandKey.KeyLeftApart` | mt19937ar.c:79-89 | Two different keys of one such length leave different arrays there. |
| `GenrandKey.TwinState` | mt19937ar.c:75-99 | Every key of 623 words or more has another key of its length, given by a formula, that seeds the same array. |
| `GenrandKey.TellsApartIff` | mt19937ar.c:75-99 | Different keys of a length seed different arrays if and only if the length is at most 622. |
| `Genrand.Generator.Regenerate` | mt19937ar.c:106-126 | In place, the array goes from one block of the pure recurrence to the next. |
| `Genrand.Generator.GenrandInt32` | mt19937ar.c:102-137 | The n-th call returns the tempered n-th word of the pure recurrence behind the seeded block; a generator never seeded is seeded with 5489 first. |
| `Genrand.Generator.StateNonzero` | mt19937ar.c:75-137 | Whatever was seeded and drawn, the array is never all zero. |
| `Genrand.Draw` | mt19937ar.c:175-191 | Any number of draws yields the tempered words of the recurrence in order. |
| `Decimal.DecDigits` | bitlist.c:528-532 | The digit loop reads back every number printed with %d. |
| `Bitlist.MembersWith` | bitlist.c:61-66 | Setting a bit of a word adds exactly that member. |
| `Bitlist.MembersWithout` | bitlist.c:69-74 | Clearing a bit of a word removes exactly that member. |
| `Bitlist.List.constructor` | bitlist.c:117-126 | A new list is empty, its cursor at the start. |
| `Bitlist.List.Test` | bitlist.c:50-58 | True exactly for members; false for bits out of range. |
| `Bitlist.List.SetBit` | bitlist.c:61-66 | Adds the bit if it is in range, and changes nothing otherwise. |
| `Bitlist.List.Clear` | bitlist.c:69-74 | Removes the bit if it is there. |
| `Bitlist.NextSet` | bitlist.c:158-197 | The least set position from a position on: what the word and bit loops search. |
| `Bitlist.List.FindBit` | bitlist.c:158-197 | Returns the least member at or behind the cursor and leaves the cursor behind it, or BITLIST_INVALID, with the cursor at the end, when there is none. |
| `Bitlist.List.FindAfter` | bitlist.c:212-220 | Returns the least member above a bit in range. |
| `BitlistText.ParseRender` | bitlist.c:505-619 | Parsing undoes printing, for every list of numbers and ranges within the bounds. |
| `BitlistText.SoFarStep` | bitlist.c:522-581 | One turn of the parsing loop: the entry it adds, or which of the five errors it stops with, and at which character. |
| `BitlistText.ReadItem` | bitlist.c:522-562 | The loops of one turn read exactly the number or range at the position, or find its error. |
| `BitlistPrint.Find` | bitlist.c:158-197 | bitlist_find_bit as a search among the members. |
| `BitlistPrint.SkipRun` | bitlist.c:648-653 | Goes to the end of a run of adjacent members, and no further. |
| `BitlistPrint.ToString` | bitlist.c:624-670 | The page is the text of ascending entries, shorter than the buffer, that hold exactly the members from the cursor up to the one returned; the cursor is set so that the next call begins there. A result other than -1 means that the page is full: there is no room for that member, or, within a run of which only the first number is printed, none for the end of the run. Nothing is printed only when no member is left or the digits of the next do not fit. |
| `BitlistFull.PageUnique` | bitlist.c:624-670 | The members, the start and the buffer size determine the text of the page and the result. |
| `BitlistFull.ResumesInsideIff` | bitlist.c:648-666 | The next call resumes within a run, printed up to there, if and only if the page ends with a number that begins a run whose end does not fit. |
| `BitlistFull.HeaderExample` | bitlist.h:111-123 | For the list 1-3,5,7-15,20 and size 8 the first call prints 1-3,5,7 and returns 8, not 7, and the second prints 8-15,20 and returns -1. |
| `BitlistPrint.FromString` | bitlist.c:505-619 | Adds exactly the members of the entries before the end of the text or its first error, and reports that error. |
| `BitlistGrammar.AcceptsIff` | bitlist.c:522-581 | A text is accepted if and only if it is empty or a list, with single commas, of numbers within the bounds and ranges from a number to a greater one, leading zeros allowed; what is added are the numbers and ranges listed. |
| `BitlistFaults.FaultRead` | bitlist.c:522-562 | Each fault of an entry is reported as its own error, behind the character where it shows: no digit, a number out of bounds, a range that does not increase, nothing behind the dash. |
| `BitlistFaults.FailsIff` | bitlist.c:522-581 | A text fails with an error at a character, after adding some entries, if and only if it is sound entries with a comma behind each and then a text whose first entry has that fault there, or is sound with something other than a comma behind it, or with a comma and nothing else. |
| `BitlistPages.Pages` | bitlist.c:688-694 | The loop ends; every page fits; the pages are ascending without repeats, and hold exactly the members whose digits fit the buffer. |
| `BitlistPages.NvWrite` | bitlist.c:673-699 | Every command line is prefix, page and suffix, and shorter than maxlen. |
| `BitlistPages.PageParses` | bitlist.c:505-694 | Every page parses without error into the entries it was printed from. |
| `BitlistPages.RoundTrip` | bitlist.c:505-694 | Feeding all pages to bitlist_from_string on a cleared list rebuilds the set if and only if the digits of every member fit the buffer; with less room exactly the members that fit come back. |
| `HeaderPredict.DontCareBytes` | test_assembly.cpp:201-202 | Which bytes the two masks exempt from the comparison. |
| `HeaderPredict.CompareIs` | test_assembly.cpp:216-242 | The two compare masks are all ones exactly when no cared-for byte differs; otherwise bsf of their complements finds the first that does. |
| `HeaderPredict.ClientValidateHeader` | test_assembly.cpp:208-301 | The instructions compute the result and the new predicted header of the byte-by-byte check. |
| `HeaderPredict.ValidateMismatch` | test_assembly.cpp:269-286 | Accepted if and only if all bytes outside the don't-care masks agree; otherwise the result is the 1-based index of the first that differs above the low 16 bits of the IP length less 40, masked with MISSMASK it is that index, and the prediction is unchanged. |
| `HeaderPredict.MissTellsAccepted` | test_assembly.cpp:257-260 | The result of an accepted segment masked with MISSMASK is 0 if and only if its IP length is at least 40. |
| `HeaderPredict.AcceptedByte` | test_assembly.cpp:243-256 | After an accepted segment of any length the acknowledgement number and the window are the segment's, unless the predicted number is the greater signed word; every other byte but the sequence number and the counter is as it was. |
| `HeaderPredict.AcceptedRest` | test_assembly.cpp:257-268 | After an accepted segment of any length, the predicted sequence number, the counter byte and the result, as the old number and counter, the reload byte and the IP length determine them. |
| `HeaderPredict.AcceptedStep` | test_assembly.cpp:243-268 | An accepted segment moves the predicted sequence number by its payload modulo 2^32; only data segments count down byte 15, which at zero is reloaded from byte 22 and raises the ACK flag. |
| `HeaderPredict.RunState` | test_assembly.cpp:208-301 | Over any run of accepted segments the predicted number is the start plus all payload bytes modulo 2^32, and the counter is what is left of the countdown. |
| `HeaderPredict.AckPacing` | test_assembly.cpp:258-268 | In any such run the ACK flag is raised with the data segment at which the counter expires, then with every data segment a reload value later, and with no other; a byte of 0 counts as 256. |
| `Bpf.Filter` | raw_pf_stun.c:116-130 | Interpreting a program ends for every packet, because jumps go forward only; a load outside the packet rejects. |
| `Bpf.RunSuffix` | sniff_stun.c:63-82 | Jumps are relative: a run from an instruction on is a run of the rest of the program. |
| `Bpf.RunPort` | raw_pf_stun.c:97-115 | Any program moved behind a header of d bytes, by adding d to the loads, gives on header and packet what it gives on the packet alone. |
| `StunFilters.RawFilterIs` | raw_pf_stun.c:116-130 | The 13 instructions accept exactly the unicast, first-fragment IP packets whose UDP payload has a STUN type byte 0, a length divisible by 4 and the magic cookie of section 6 of RFC 5389. |
| `StunFilters.TailIsPorted` | raw_pf_stun.c:97-130 | From the fragment check on, the Ethernet program is the raw one moved by 14 bytes, with another accept value. |
| `StunFilters.EthFilterIs` | sniff_stun.c:63-82 | The 17 instructions accept exactly the frames of type 0x0800 whose IP packet has protocol 17 and is accepted by the raw filter. |
| `StunFilters.EthShort` | sniff_stun.c:63-82 | A frame shorter than its header is rejected. |
| `StunFilters.FiltersAgree` | sniff_stun.c:63-82 | Behind every Ethernet header of type 0x0800, on every UDP packet, both filters accept or both reject. |
| `TimerSpec.TimeArithmetic` | multimer.c:86-109 | On normalised times timeradd and the subtraction of timer_get add and subtract microseconds and stay normalised, and timerless compares them. |
| `TimerSpec.ArmedGood` | multimer.c:135-194 | Setting a timer keeps the queue sorted by expiry with ties in insertion order and one element per client, and the client's element is the new one. |
| `TimerSpec.FiredGood` | multimer.c:228-237 | Taking the expired head keeps the queue good, and makes it shorter exactly if the head has no interval. |
| `TimerSpec.FiredRequeues` | multimer.c:233-237 | An interval timer is queued again for old expiry plus interval; no other element changes. |
| `TimerLaws.SetMeans` | multimer.c:135-194 | After timer_set with an interval the client has one element, with the function given, due exactly the interval after the clock reading or at the time given, and newer than all others; with a null pointer it has none. Every other client's element is unchanged, and each interval that is kept, reused or freed is the one the source leaves there. |
| `TimerLaws.FireMeans` | multimer.c:228-237 | The expired head's client is left without an element if its interval is 0, else with one, for the same function and interval, due one interval after the old expiry; every other element is unchanged. |
| `TimerLaws.WriteMeans` | multimer.c:193 | Writing through the pointer returned changes the interval of the client's element and nothing else. |
| `TimerLaws.RunsIff` | multimer.c:207-241 | The events of timer_get are the ones, and the only ones, in which every pass fires the expired head and then makes the handler's calls in order, each timer_set with its due time and each nested timer_get going on until it may return, until the call itself may. |
| `Timers.TimerQueue.TimerSet` | multimer.c:135-194 | On the linked lists: the client is left with one element, with the function given, due the interval after the clock reading or at the time given, or with none for a null pointer; every other client's element is unchanged. A client in the queue keeps its own element and the free list stays as it is; another one gets the first free element, or a new one; a cancelled element goes to the front of the free list. The lists stay disjoint and together hold every element allocated. |
| `Timers.TimerQueue.FireHead` | multimer.c:229-237 | The head goes to the free list and an interval timer comes back from there, with the same element, due one interval after its old expiry, before its handler is called; every other element is unchanged. |
| `Timers.TimerQueue.RunHandler` | multimer.c:238 | A handler leaves the lists as its calls of timer_set and timer_get, in order, lead to from what it found, and nothing else is done. |
| `Timers.TimerQueue.TimerGet` | multimer.c:207-241 | What the loop over the linked lists does, with handlers that call timer_set and timer_get themselves, is exactly the sequence of firings and handlers' calls that the clock readings and the handlers determine; replaying it from the queue found gives the queue left. It is legal, and the answer fits: a null pointer for an empty queue, else the positive normalised gap from the clock reading of the last pass to the next expiry, no timer being due at that reading. |
| `TimerSpec.GetSound` | multimer.c:207-241 | From a good state, nested calls included, only heads fire whose expiry has passed, the state left is good, and the answer is the one that fits the queue left and the last clock reading. |
| `TimerSpec.LegalMeans` | multimer.c:207-241 | In a legal run every event, of whatever depth, starts in a good state, and every firing is of the head of the queue at that point, with its expiry passed by the time read. |
| `TimerSpec.ApplyGood` | multimer.c:135-241 | Firing, setting, cancelling and writing an interval each lead from a good state to a good state. |
| `TimerSpec.CancelsIff` | multimer.c:148-174 | After timer_set the client is without a timer if and only if the interval was a null pointer. |
| `TimerSpec.ZeroIsDueAtOnce` | multimer.c:148-174 | A zero interval from now on sets a timer that is due now, so that the head of the queue has expired. |
| `DirMonitor.StepKeepsInv` | dir_monitor/src/inotify/dir_monitor_impl.hpp:65-101 | Every step of every thread keeps mutual exclusion, conservation of the events, no lost wakeup and the exit condition of the wait loop. |
| `DirMonitor.HandOff` | dir_monitor/src/inotify/dir_monitor_impl.hpp:65-101 | In every interleaving the popped events are a prefix of the accepted ones, each once and in order; when the lock is free, a waiter not notified means running and empty. |
| `DirMonitor.AbortedOnlyWhenDone` | dir_monitor/src/inotify/dir_monitor_impl.hpp:82-90 | operation_aborted is returned only when stopped and empty. |
| `DirMonitor.StopsForGood` | dir_monitor/src/inotify/dir_monitor_impl.hpp:65-101 | Once stopped, the monitor stays stopped and accepts nothing. |
| `DirMonitor.StepRefines` | dir_monitor/src/inotify/dir_monitor_impl.hpp:65-101 | Every step is one atomic operation of a plain queue or none, made by the owner of the lock, and the result a thread carries away is that operation's. |
| `DirMonitor.OneOperationPerCall` | dir_monitor/src/inotify/dir_monitor_impl.hpp:65-101 | In every run each thread performs, in the order of its calls, exactly one operation for each finished call, and of its kind. |
| `DirMonitor.NobodyForgotten` | dir_monitor/src/inotify/dir_monitor_impl.hpp:76-101 | The owner of the lock can always go on, and when the lock is free and there is an event or a stop, every thread inside a call can take it. |
| `DirMonitor.EveryCallCanReturn` | dir_monitor/src/inotify/dir_monitor_impl.hpp:65-91 | From every stopped state that keeps the invariant, each thread inside a call has a continuation in which its call returns. |
| `DList.List.InsertAfter` | DList-test/MyDList.hpp:441-450 | Puts the node behind the given one, and nothing else moves. |
| `DList.List.InsertBefore` | DList-test/MyDList.hpp:455-464 | Puts the node before the given one, and nothing else moves. |
| `DList.List.AddHead` | DList-test/MyDList.hpp:214-218 | The object becomes the first member. |
| `DList.List.AddTail` | DList-test/MyDList.hpp:223-227 | The object becomes the last member. |
| `DList.List.Remove` | DList-test/MyDList.hpp:311-324 | Takes out exactly the node, which is off-list afterwards. |
| `DList.List.RemoveHead` | DList-test/MyDList.hpp:329-341 | Takes out the first member, or returns Null() from an empty list. |
| `DList.List.RemoveAll` | DList-test/MyDList.hpp:295-306 | Empties the list and leaves every former member off-list. |
| `DList.List.Swap` | DList-test/MyDList.hpp:469-502 | Exchanges exactly two positions, whether the items are the same, adjacent in either order, or apart. |
| `Checksum.Csum` | rawudp.c:58-68 | The loop sums the words without wrapping a 64-bit accumulator, and folds twice. |
| `Checksum.NoWrap32` | rawudp.c:58-68 | Up to 65537 words the sum fits an accumulator of 32 bits as well. |
| `Checksum.OcSumIs` | rawudp.c:61-66 | The sum with end-around carry at each step is the plain sum reduced modulo 0xffff, with 0 only for zeros. |
| `Checksum.CsumCorrect` | rawudp.c:52-68 | Up to 65538 words, two folds give the complement of the one's complement sum. |
| `Checksum.CsumLimit` | rawudp.c:58-68 | They do for every buffer of n words if and only if n is at most 65538. |
| `Checksum.VerifiesIff` | rawudp.c:52-56 | With the checksum word zeroed for the computation, the finished buffer sums to 0 exactly when that word holds the checksum, or 0xffff where the checksum is 0. |
| `Checksum.ChangedWordIff` | rawudp.c:52-68 | A buffer that sums to 0, and has another word that is not 0, still does after one word is changed if and only if the word goes from 0 to 0xffff or back. |
| `Checksum.SwapLaw` | rawudp.c:58-68 | Swapping the bytes of every word swaps the bytes of the checksum. |
| `UdpChecksum.InCksum` | test_packet.c:82-109 | For even and odd lengths the loop adds the words of the bytes, an odd last byte as if a zero byte followed, without overflowing its int, and folds. |
| `UdpChecksum.UdpCksum` | test_packet.c:114-150 | 0 when the IP header has options. Else, up to 65515 bytes, the complement of the one's complement sum of the two words of the source address, the two of the destination address, the zero byte with protocol 17, the length, and the words of the datagram. |
| `UdpChecksum.NoOverflow` | test_packet.c:82-150 | The int accumulator overflows for no datagram that fits an IPv4 packet, on either byte order. |
| `UdpChecksum.ByteOrderFree` | test_packet.c:82-150 | Hosts of different byte order compute the same checksum bytes. |
| `UdpChecksum.ReceiverAcceptsIff` | test_packet.c:228-236 | A datagram summed with its field zeroed sums to 0 exactly when the field then holds the computed value, or 0xffff where that is 0. |
| `UdpChecksum.AddressChangeIff` | test_packet.c:114-150 | An accepted packet, one word of whose addresses is changed, is still accepted if and only if the word goes from 0 to 0xffff or back. |
| `Hash.HashKey` | bsd_hash/hash.c:43-57 | The loops compute the byte sum with its carries folded back in, and its remainder by a size that is an int and must not be 0. |
| `Hash.FoldedSum` | bsd_hash/hash.c:43-57 | The folded hash is 0 for no bytes, and one more byte adds to it in eight bits, the carry added back in. |
| `Hash.HashDefinedIff` | bsd_hash/hash.c:43-140 | For power-of-two tables the size narrowed to int is not 0 if and only if it is below 2^32; then hashing with it and masking gives the remainder modulo the size, also at 2^31, where the int is negative. |
| `Hash.SizesThatHash` | bsd_hash/hash.c:62-140 | The tables made on which hash divides by zero are those for powers of two from 2^32 on and for everything from MAX_BUCKETS on. |
| `Hash.TooLargeToHash` | bsd_hash/hash.c:62-140 | A table for 2^32 entries is one of them. |
| `Hash.FoldedHash` | bsd_hash/hash.c:43-57 | The folded sum is at most 255 and the same for every permutation of the key's bytes. |
| `Hash.TableSize` | bsd_hash/hash.c:73-89 | The clamping, the power-of-two test and the bit count lead to the size that SizeIsLeast speaks of. |
| `Hash.SizeIsLeast` | bsd_hash/hash.c:73-89 | The size is the least power of two from max(nel, 16) on if and only if nel is at most 2^30, or is a power of two up to MAX_BUCKETS. |
| `Hash.MaskOfPow2` | bsd_hash/hash.c:139-140 | Masking a hash with a power of two less one is taking it modulo that size. |
| `HashTable.BucketComputedIff` | bsd_hash/hash.c:139-140 | The code computes the bucket of a key if and only if the table size is below 2^32; the bucket is in the table, and one of the first 256. |
| `HashTable.KeyOf` | bsd_hash/hash.c:135-137 | The key is the first keyLen bytes, or for length 0 those before the first NUL. |
| `HashTable.Table.NewTable` | bsd_hash/hash.c:62-102 | Makes an empty table of the computed size; returns 0 without making one when there is one already, which stays as it is, or memory is short. |
| `HashTable.Table.Add` | bsd_hash/hash.c:123-155 | In a table of fewer than 2^32 buckets, pushes the value on the key's stack and leaves all other keys alone. |
| `HashTable.Table.Delete` | bsd_hash/hash.c:158-195 | In such a table, pops the newest entry of the key, if there is one, by relinking its bucket in place, and leaves all other keys alone. |
| `HashTable.Table.Lookup` | bsd_hash/hash.c:199-227 | In such a table, returns the newest live value of the key, or NULL; length 0 stands for strlen. |
| `HashTable.FirstMatch` | bsd_hash/hash.c:177-193 | The first matching entry of a bucket is the newest of its key, and without it the rest of the stack remains. |
| `Netlink.AlignIsMask` | netlink/libnetlink.c:487-495 | The alignment macros' mask is rounding up to a multiple of 4. |
| `Netlink.Message.AddAttrL` | netlink/libnetlink.c:499-515 | -1 and nothing changed when the aligned attribute would pass maxlen; else the header, cut to 16 bits each, and the payload are stored behind the aligned message. |
| `Netlink.AddLMeans` | netlink/libnetlink.c:499-515 | Byte by byte: length and type, lowest byte first, and the data stand behind the aligned message; every other byte is as it was; the new length is aligned. |
| `Netlink.Message.AddAttr32` | netlink/libnetlink.c:483-497 | The same as adding the four bytes of the number. |
| `Netlink.Bytes32Are` | netlink/libnetlink.c:494 | Those bytes are the number's, lowest first. |
| `Netlink.Message.AddRawL` | netlink/libnetlink.c:517-528 | The same bound; the data are stored and padded with zeros. |
| `Netlink.AddRawMeans` | netlink/libnetlink.c:517-528 | Byte by byte: the data stand behind the aligned message, zeros fill up to the new, aligned length, and every other byte is as it was. |
| `Netlink.ParseRtattr` | netlink/libnetlink.c:565-576 | On any bytes, well formed or not, the loop ends, reads only what it was given, leaves the deficit of the walk, and fills the table. The report of a deficit reads rta_len where the loop stopped: within the bytes given if and only if the deficit is 0, so that nothing is reported, or at least 2. |
| `Netlink.ReportOutside` | netlink/libnetlink.c:573-574 | One attribute of five bytes makes the report read behind them. |
| `Netlink.FindsLast` | netlink/libnetlink.c:568-572 | On any bytes the table maps each type to the last attribute with it among those the loop meets, or to none. |
| `Netlink.ApplyStays` | netlink/libnetlink.c:483-515 | A rejected call changes nothing; an accepted one keeps nlmsg_len aligned and within maxlen, and writes only between the old length and maxlen. |
| `Netlink.BuildStays` | netlink/libnetlink.c:483-515 | The same over any sequence of calls. |
| `Netlink.ParsesLaid` | netlink/libnetlink.c:565-576 | Parsing well laid out bytes meets exactly their attributes and leaves no deficit. |
| `Netlink.RoundTrip` | netlink/libnetlink.c:483-576 | From an aligned empty message, after any sequence of calls, parsing meets exactly the attributes of the accepted calls if and only if each payload is short enough for the 16 bits of rta_len; then the deficit is 0 and each type is mapped to the last attribute added with it, exact length and payload. |
| `CircBuffer.Header.constructor` | circ_buffer.c:248-311 | An empty buffer of max + 1 slots; OVERWRITE holds if it was asked for, or if a header from malloc happened to contain it. |
| `CircBuffer.Meet` | circ_buffer.c:49-98 | The read and write positions meet exactly when the buffer is empty. |
| `CircBuffer.Header.Enqueue` | circ_buffer.c:30-70 | Appends; a full buffer gives up its oldest item, to the cleanup function if there is one, with OVERWRITE, and drops the new one without, returning TRUE either way; FALSE only after destroy. |
| `CircBuffer.Header.Dequeue` | circ_buffer.c:72-109 | Takes the oldest item, or returns NULL; the sanity check never finds a count to repair. |
| `CircBuffer.Header.Peek` | circ_buffer.c:112-131 | The oldest item, or NULL, and nothing changed. |
| `CircBuffer.Header.Reset` | circ_buffer.c:133-167 | Empties the buffer; each stored item is passed to the cleanup function once, in order, if there is one. |
| `CircBuffer.Header.Lookup` | circ_buffer.c:169-204 | The oldest item that func matches, or NULL if none does. |
| `CircBuffer.Header.Destroy` | circ_buffer.c:313-351 | As reset, and the header is no longer valid. |
| `CircBuffer.KeepsNewest` | circ_buffer.c:45-66 | Over any mix of enqueues and dequeues with OVERWRITE, the buffer holds the newest items offered. |
| `CircBuffer.Filled` | circ_buffer.c:45-66 | Filled only, it holds the newest max items with OVERWRITE and the oldest max without. |
| `CircBuffer.Conservation` | circ_buffer.c:30-167 | With a cleanup function every accepted item is exactly one of dequeued, cleaned up once, and stored. |
| `SortedArray.GetIndex` | sorted_array.c:83-120 | Ends with the first occurrence, or else with the insertion point, also among duplicates. |
| `SortedArray.PlaceUnique` | sorted_array.c:71-82 | There is only one such index. |
| `SortedArray.GetIndex2` | sorted_array.c:131-148 | The same for pairs in lexicographic order, full arrays included. The loop reads array_1 at count, and so behind a full array, if and only if the last pair has the first number looked for and a smaller second one; the result does not depend on it. |
| `SortedArray.ReadsPastTheEnd` | sorted_array.c:139 | The full array of the pair (1, 0), searched for (1, 1), is such a one. |
| `SortedArray.Add2` | sorted_array.c:157-174 | Keeps the pairs strictly sorted and adds exactly the new pair, at one place in both arrays, if it was absent. |
| `SortedArray.PartialCompare` | sorted_array.c:183-215 | What the length shortcuts and the nested loops answer, for any arrays. |
| `SortedArray.DecidesSubset` | sorted_array.c:176-215 | For sorted arrays that answer says whether the first is a subset of the second, for every second, if and only if the first is strictly increasing. |

## Left out

- All socket, netlink, ioctl, capability, libevent, ptrace and boost-service code and every main
  except the output loop of `mt19937ar.c`: input, output and foreign calls.
- `ip_range.c`: reading and parsing addresses and prefixes, and their error exits; the networks
  are given already masked, as `str_to_netaddr` leaves them. qsort is modelled as an insertion sort;
  CidrJoin.AnySort says that this makes no difference.
- Failing malloc, except in `hash.c`, where it is a parameter.
- Genrand.Generator.InitByArray: the key is at most as long as its int counters can count, and its
  words are cut to 32 bits, as the masks in the loop cut them.
- `mt19937ar.c`: the conversions to 31 bits and to reals, one line each.
- `bitlist.c`: copying, the set operations, counting and the vector allocators, which loop over the
  words once. Complementing sets bits beyond the size, so counts and equality after it mean little.
- Bitlist.List.constructor: positions are numbers without bound; the program returns them as int, so
  members from 2^31 on would come out negative, and 0xffffffff as BITLIST_INVALID.
- BitlistPrint.FromString: numbers are read without the overflow of int.
- BitlistPrint.ToString: the 16-byte scratch buffer, which holds every 32-bit number, is not
  modelled, and the text is a string without its terminating NUL.
- BitlistPages.RoundTrip: for lists of the same base and size, as one list printed and read back is.
- HeaderPredict.ClientValidateHeader: the vector registers are modelled by the bytes they compare;
  the ACK number is ordered by the signed compare of the code, and no property of it as a serial
  number is stated. The AVSM, server and dynamic-header variants and the copy routines are left out.
- Bpf.Filter: only the opcodes of the two tables; indexed offsets do not wrap at 2^32, which no
  packet length reaches.
- Timers.TimerQueue.TimerSet: the caller's later write of the interval through the returned pointer
  is WriteInterval, made by a handler right after the call; that a recycled element may still carry
  an old interval is in the contract, so no one-shot guarantee is stated for it.
  gettimeofday is a parameter of each call.
- Timers.TimerQueue.TimerGet: handlers are finite scripts of calls. With a clock that lets timers
  expire for ever the loop of the source does not end; here the script is then used up.
- DirMonitor.HandOff: destroy joins the watching thread before it takes the lock; that join, the
  reassembly of the byte stream in end_read and the maps of watched directories are not modelled.
- DirMonitor.EveryCallCanReturn: says that a schedule exists by which the call returns, not that a fair
  scheduler takes it.
- DList.List.Swap: nodes stand for the objects that contain them; the offset arithmetic between
  the two, moveList, CountedDList, deleteItems and foreach are left out.
- UdpChecksum.InCksum: the csum argument is not negative, which its one caller guarantees.
- UdpChecksum.UdpCksum: for datagrams whose sum fits an int, which UdpChecksum.NoOverflow shows of every
  datagram that fits an IPv4 packet.
- `sanity_check_packet_frame` of `test_packet.c`: a chain of length checks before the checksum.
- HashTable.Table.Add: entries keep the key's bytes instead of a pointer that the caller could write
  through, and deleted entries are not freed. A NULL table, and free_hash_table, are left out.
- Netlink.RoundTrip: for a little-endian host, and for calls of addattr32 and addattr_l; the nested
  forms rta_addattr32 and rta_addattr_l repeat them on an attribute. maxlen is not negative.
- Netlink.Message.AddAttrL: maxlen is within the buffer; its sums do not reach 2^32.
- CircBuffer.Header.Enqueue: the interrupt locks, the debug output and the queue of all buffers are
  not modelled, and cleanup_func does not call back into the buffer.
- SortedArray.GetIndex: the middle index is added up as an int, which needs at most 2^30 elements.
- SortedArray.GetIndex2: what is read behind a full array has no value in the model.
- `sorted_array_add`, a linear insertion.
- Second copies and small samples: `test/multimer.c`, `test_assembly_dynhdr.cpp`, the event queue
  sample of inotify, the STL and boost samples, `vam_time.h`, and `bitmap.c`, whose implementation
  is in files that are not there.
