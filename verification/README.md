# Ruby's core, modelled and verified

A model in Dafny of the algorithms at the heart of the interpreter and its small libraries, with proofs about them:

- **Bignums** (`Arith`, `Digits`, `Bignum`, `BignumMul`, `BignumShift`, `BignumDiv`, `BignumRadix`): 16-bit digits in
  arrays, with the wrap-around of 32-bit `long` and `unsigned long` written out. Addition, subtraction, multiplication,
  powers, shifts, long division, printing and reading.
- **Number theory in Ruby** (`NumberTheory`, `Mathn`, `Rational`): the incremental sieve, prime factors, two gcds, fractions.
- **Garbage collector** (`Gc`): slots, free list, recursive marking, sweeping, allocation.
- **Threads** (`Scheduler`, `ThreadQueue`, `ThreadMutex`): the ring of threads with its three kinds of waits and their
  counters; `Queue` and `Mutex` as state machines with one step per statement, in every interleaving.
- **Hash tables** (`StTable`): chains of entries in bins, tied to a map.
- **Strings** (`Tr`, `Uuencode`, `Base64`): `tr!` and `delete!`, `pack('u')`, and the base64 encoder built from the two.
- **Regular expressions** (`RegexSets`, `RegexTree`, `RegexSyntax`, `RegexScan`, `RegexAccept`, `RegexRefusal`,
  `RegexLayout`, `RegexState`, `RegexCompile`, `RegexPath`, `RegexFlow`, `RegexComplete`, `RegexEnds`, `RegexLoops`,
  `RegexMachine`, `RegexVm`, `RegexLoss`, `Regex`): the one-pass compiler that moves code to make room for jumps; the
  backtracking matcher that rewrites its code; the language they share.
- **Method cache** (`MethodCache`): method tables, chains of classes with included modules, the cache and what clears it.

Objects that the interpreter and its libraries update in place are classes whose methods say what the new state is; the
functions that these contracts use, and the invariants, are the subject of the lemmas. `Wrappers` holds what the modules share.

## Model

| member | source | states |
|---|---|---|
| Bignums.Int2Big | bignum.c:132-148 | The digits of any `long`, its most negative value included, with the sign apart and no leading zero; the object stands for exactly that number |
| Bignums.BigNorm | bignum.c:78-101 | Leading zero digits go, the magnitude stays, and what comes back is the one form the interpreter uses for the number: a fixnum below 2^30, else a bignum without leading zeros |
| Bignums.SmallIff | bignum.c:78-101 | The test on one or two digits in `bignorm` decides exactly whether the number is below 2^30 |
| Bignums.BigCmp | bignum.c:416-446 | The three results are the three orders of the two numbers, both ways |
| Bignums.CarryStep | bignum.c:483-572 | Writing one column, with the carry or borrow taken from C arithmetic, keeps digits plus carry equal to the sum or difference of the columns read |
| Bignums.SubDigits | bignum.c:510-526 | The borrow loops leave the difference of the two magnitudes when the first is not smaller |
| Bignums.BigSub | bignum.c:483-529 | The normalised difference of two magnitudes, with the swap when the first is smaller |
| Bignums.AddDigits | bignum.c:552-569 | The carry loops leave the sum of the two magnitudes in one digit more |
| Bignums.BigAdd | bignum.c:531-572 | The normalised sum or difference of two signed numbers, for all signs |
| BignumMul.MulColumnExact | bignum.c:645-650 | A column of the product never leaves 32 bits, although one part of it is computed in a signed word |
| BignumMul.MulRow | bignum.c:642-654 | One row adds digit times multiplicand times its place value, and touches no digit above |
| BignumMul.BigMul | bignum.c:612-657 | The normalised product of two signed numbers |
| BignumMul.PowerLoop | bignum.c:884-895 | The square-and-multiply loop computes the power; the result is normalised unless no multiplication took place |
| BignumMul.BigPow | bignum.c:856-896 | The result always stands for the power; it is in normal form if and only if the exponent is not 1 or the base is not a small bignum |
| BignumMul.FixPow | numeric.c:655-673 | A fixnum to a non-negative power stands for the power; it is in normal form if and only if the exponent is not 1 or the base is -2^30 |
| BignumMul.ThreeToTheFirst | numeric.c:655-673 | The failing case: `3 ** 1` is a bignum that stands for 3, and not the fixnum |
| BignumShift.LeftShift | bignum.c:1057-1085 | The normalised product with a power of two |
| BignumShift.ShiftDown | bignum.c:1106-1115 | The digits of the quotient by a power of two, each put together from two neighbours by shift and or |
| BignumShift.BigLShift | bignum.c:1057-1085 | With a negative count it is the right shift by the opposite count |
| BignumShift.BigRShift | bignum.c:1087-1117 | With a negative count it is the left shift; else the magnitude is shifted, and a count past the end gives 0 or -1 |
| BignumShift.RightShiftFloorsIff | bignum.c:1087-1117 | The result is the floor if and only if the number is not negative, the count passes the end of the digits, or no set bit is shifted out |
| BignumShift.RightShiftFails | bignum.c:1087-1117 | The failing case: -(2^30+1) shifted by 1 |
| BignumDiv.TrialBounds | bignum.c:727-729 | The guess from the two top digits is never below the true digit, at most two above it, and the subtraction borrows less than one unit of the place above |
| BignumDiv.MultiplySubtract | bignum.c:730-740 | The window loses guess times divisor; the borrow word accounts for the rest exactly, through unsigned wrap-around |
| BignumDiv.BorrowIsOneBit | bignum.c:727-741 | After the subtraction the borrow word is 0 or -1, and 0 exactly when nothing is owed |
| BignumDiv.AddBack | bignum.c:741-750 | The window gains the divisor, with a carry of one bit |
| BignumDiv.DivideDigit | bignum.c:726-752 | One turn of the division loop leaves the true quotient digit and the true remainder of the window, after at most two add-backs |
| BignumDiv.DivideLoop | bignum.c:725-753 | The whole loop leaves quotient and remainder of the scaled dividend in the two parts of one array |
| BignumDiv.ScaledDivisor | bignum.c:699-718 | The scale factor keeps the length of the divisor and lifts its top digit to half the radix at least |
| BignumDiv.Unscale | bignum.c:754-776 | Quotient and remainder of the scaled numbers give those of the original ones |
| BignumDiv.ShortDivide | bignum.c:683-688 | Division by one digit in place: quotient digits and remainder add up to the dividend |
| BignumDiv.LongDivide | bignum.c:696-777 | Quotient and remainder of the magnitudes, with the signs that the code gives them |
| BignumDiv.BigDivMod | bignum.c:659-777 | Every branch, the zero divisor and the early out included: the quotient and remainder that `QuotientOf` and `RemainderOf` describe, normalised |
| BignumDiv.DivisionExactOnMagnitudes | bignum.c:659-777 | In absolute values dividend = quotient times divisor + remainder, and the remainder is smaller than the divisor |
| BignumDiv.SignedDivisionIff | bignum.c:659-777 | With their signs the three numbers make up the dividend if and only if the listed cases on signs, divisor length and zero remainder hold |
| BignumDiv.SignedDivisionFails | bignum.c:659-777 | The failing case: -(2^30+1) divided by 2 gives -2^29 and 1 |
| BignumRadix.TwoTo800 | bignum.c:276-290 | 2^800 is at most 10^241: the constant 241/800 behind the decimal estimate |
| BignumRadix.BufferLargeEnough | bignum.c:276-292 | The buffer that is reserved holds all digits and a sign, in bases 2, 8, 10 and 16 |
| BignumRadix.DecimalBufferIff | bignum.c:276-292 | The decimal estimate, taken in 32 bits, is large enough if and only if the product in it does not wrap around |
| BignumRadix.DecimalBufferFails | bignum.c:276-292 | The failing case: with 1113841 digits a buffer of 6 characters is made |
| BignumRadix.PrintDigits | bignum.c:309-325 | Repeated division by the fourth power of the base writes the numeral from its end to its beginning, inside the buffer |
| BignumRadix.Big2Str | bignum.c:265-332 | The text is the numeral with its sign, without leading zeros; the bad base is refused |
| BignumRadix.StrToUL | missing/strtoul.c:56-184 | The value of the longest run of digits behind blanks and prefix; what a digit is worth is fixed by the tables of `ReadsInBase` |
| BignumRadix.AllocationLargeEnough | bignum.c:212-232 | The digits reserved for a string hold every number that a string of that length can denote |
| BignumRadix.MulAdd | bignum.c:245-259 | One more character multiplies by the base and adds, growing by a digit exactly when a carry is left |
| BignumRadix.Str2Inum | bignum.c:166-262 | Sign, prefix and base detection, both branches: the result is the normal form of the number that the string denotes |
| BignumRadix.ReadsInBase | bignum.c:166-262 | For a text made of blanks, a sign, the digits of a number in a given base, each in either case, and anything but a digit behind, the number denoted is that number; digits are characters of two written tables |
| BignumRadix.ReadsWithPrefix | bignum.c:177-200 | The same where the base is to be found: `0x` and `0X` announce base 16, `0` announces base 8, and no prefix base 10 |
| BignumRadix.NumeralSpells | bignum.c:265-332 | The numerals that are printed are of that kind, so that they are read back with any of their prefixes |
| BignumRadix.FourSpellings | bignum.c:177-200 | `0xFF`, `0Xff`, `0377` and `255` are the same number |
| BignumRadix.PrintParseRoundTrip | bignum.c:166-332 | Reading what was printed gives the number back, for every number and base |
| BignumRadix.PrintThenParse | bignum.c:166-332 | The two methods one after the other give back the same object, digit for digit |
| Mathn.Prime.constructor | lib/mathn.rb:71-75 | The empty list of primes |
| Mathn.Prime.Advance | lib/mathn.rb:84-86 | A counter moves to the first multiple of its prime that is not below the seed |
| Mathn.Prime.Succ | lib/mathn.rb:77-98 | The list is extended by a prime above the seed, and remains the list of all primes up to the seed |
| Mathn.PrimesUpToUnique | lib/mathn.rb:77-98 | Successive calls enumerate the primes in order and leave none out: after any number of calls the list is determined |
| Mathn.CutOff | lib/mathn.rb:60-65 | Stopping at the square root is right: what is left is 1 or prime |
| Mathn.PrimeDivision | lib/mathn.rb:45-65 | For a positive number, a list of prime powers, strictly increasing, with the number as product; for a negative one, only its factors 2, as the code stops behind the first prime |
| Mathn.FromPrimeDivision | lib/mathn.rb:37-43 | The product of the powers |
| Mathn.DivideAndMultiply | lib/mathn.rb:37-65 | Factoring and multiplying gives the number back if and only if it is positive |
| Mathn.FactorizationUnique | lib/mathn.rb:45-65 | Unique factorisation: no other increasing list of prime powers has that product |
| Mathn.CommonPowersIsGcd | lib/mathn.rb:19-35 | The product over the common primes with the smaller exponents is the greatest common divisor |
| Mathn.Gcd2 | lib/mathn.rb:19-35 | The gcd of prime factors equals the gcd of division |
| NumberTheory.GcdIsGcd | lib/rational.rb:256-267 | The Euclidean recursion divides both numbers and is divided by every common divisor |
| NumberTheory.PrimeDividesProduct | lib/mathn.rb:45-65 | A prime that divides a product divides a factor |
| NumberTheory.MorePrimes | lib/mathn.rb:77-98 | There is always a next prime, so `succ` ends |
| Rationals.IntegerGcd | lib/rational.rb:256-267 | The loop computes the gcd of the absolute values |
| Rationals.BothGcds | lib/rational.rb:256-267 | `gcd` and `gcd2` agree wherever the latter is defined |
| Rationals.IntegerLcm | lib/rational.rb:269-274 | The lcm, or the error of dividing by zero when both numbers are zero |
| Rationals.LcmIsLeast | lib/rational.rb:269-274 | A common multiple that divides every common multiple; zero if one number is |
| Rationals.NoLcm | lib/rational.rb:269-274 | Two zeros, and no other numbers, have none |
| Rationals.Reduce | lib/rational.rb:47-60 | The method computes `Reduced`, with both settings of Unify |
| Rationals.ReducedIsLowest | lib/rational.rb:47-60 | Positive denominator, no common factor, and the same value as the fraction that was given |
| Rationals.ReducedCanonicalIff | lib/rational.rb:47-60 | Two fractions reduce to the same object if and only if they are equal as numbers |
| Collector.FollowsReferences | gc.c:355-553 | What the marking follows from a slot is exactly what the slot refers to, told field by field: class, superclass, tables, elements, both halves of hash entries, original string, local variables, and the children of each type of node |
| Collector.Gc.Mark | gc.c:367-553 | From any object the marking adds marks only, marks the object, leaves no marked object with a reference to an unmarked one, and stays inside any set closed under references around it |
| Collector.Gc.MarkAll | gc.c:367-553 | The loops over elements and roots keep what is still to be marked exactly accounted for |
| Collector.Gc.MarkRoots | gc.c:752-804 | A slot is marked if and only if a path of references leads to it from a root |
| Collector.MarkedIffReachable | gc.c:367-553 | When nothing is pending, the marked slots are the reachable ones, both ways |
| Collector.Gc.AddHeap | gc.c:211-237 | All slots of the new heap are on the free list, once each; nothing else changes |
| Collector.Gc.SweepSlot | gc.c:559-603 | One slot: kept with its mark cleared, or freed and linked in front of the free list |
| Collector.Gc.Sweep | gc.c:559-603 | The free list is rebuilt from exactly the unmarked slots, each once; marks are cleared; a new heap comes if too little was freed |
| Collector.Gc.Collect | gc.c:752-804 | Reachable slots are unchanged, all others are free, and the free list is not empty; nothing happens while collection is switched off |
| Collector.Gc.NewObj | gc.c:239-253 | The slot handed out was free, is reachable from nothing, and no reachable slot changes |
| ThreadQueue.StepInv | lib/thread.rb:76-101 | Every step of any thread keeps the five invariants |
| ThreadQueue.RunInv | lib/thread.rb:76-101 | They hold in every state of every interleaving |
| ThreadQueue.QueueOrder | lib/thread.rb:76-101 | What was pushed is what was delivered followed by what is queued, in order |
| ThreadQueue.NoLostWakeup | lib/thread.rb:76-101 | While a popper waits, every queued object has a popper that was woken for it, and that popper runs or a running pusher is about to run it |
| ThreadQueue.SuspendedAccountedFor | lib/thread.rb:84-101 | A suspended thread is in the waiting list or about to be run, never both and never neither |
| ThreadQueue.NoDeadlockWithItems | lib/thread.rb:76-101 | Not all threads are suspended while the queue holds something |
| ThreadQueue.WokenInOrder | lib/thread.rb:76-101 | Nobody who waits in `pop` is woken before a thread that has waited longer |
| ThreadQueue.ReturnsDelivered | lib/thread.rb:84-101 | `pop` returns the object that was taken out of the queue last |
| ThreadQueue.PopKeepsItsWord | lib/thread.rb:84-101 | A call that may not block never waits, and one that may never raises the error |
| ThreadQueue.OnlyWhenEmpty | lib/thread.rb:84-101 | The error is raised, or a popper begins to wait, only when the queue is empty |
| ThreadMutex.StepInv | lib/thread.rb:26-58 | Any step of any thread but an alien unlock keeps the invariants of the lock; if it is no relock either, no holder waits; if nobody is woken up from outside, the lists of waiting threads are exact |
| ThreadMutex.RunInv | lib/thread.rb:26-58 | They hold in every state of every interleaving, in which any thread may call any method at any time |
| ThreadMutex.MutualExclusion | lib/thread.rb:26-58 | Never two holders, in every interleaving in which no thread passes the test of `unlock` while another one holds the mutex |
| ThreadMutex.WaitingImpliesLocked | lib/thread.rb:37-58 | In these, threads wait only for a mutex that some thread holds |
| ThreadMutex.SuspendedIsServed | lib/thread.rb:37-58 | If also no holder locks the mutex again: a suspended thread is in the waiting list of a mutex whose holder is not suspended, or in the list of a running unlocker, whoever is woken up from outside |
| ThreadMutex.TryLockAnswers | lib/thread.rb:26-35 | The answer of `try_lock` is true exactly when the mutex was free; then the caller holds it, and else nothing has changed |
| ThreadMutex.NoLostWaiter | lib/thread.rb:37-58 | If also nobody is woken up from outside: that is the list of exactly one unlocker, and no list has a thread twice |
| ThreadMutex.ExclusionIff | lib/thread.rb:47-58 | The condition is exact: a step after such a run can lead to two holders, with no alien unlock behind it, if and only if it is an alien unlock |
| ThreadMutex.ServedIff | lib/thread.rb:37-45 | The other condition is exact too: a step can lead to a waiter whose holder is suspended if and only if it is a relock |
| ThreadMutex.StuckForEver | lib/thread.rb:37-45 | A holder that locks the mutex again stays suspended with the mutex locked in every continuation, unless there is an alien unlock or it is woken up |
| ThreadMutex.AlienUnlockBreaks | lib/thread.rb:47-58 | From every state an alien unlock can be followed so that the stranger holds the mutex together with its holder |
| ThreadMutex.AlienUnlockHappens | lib/thread.rb:47-58 | The failing case: a run that leads to an alien unlock |
| ThreadMutex.RelockHappens | lib/thread.rb:37-45 | The failing case: a run that leads to a relock |
| Scheduler.Threads.constructor | eval.c:5033-5082 | A ring of one runnable thread |
| Scheduler.Threads.Ready | eval.c:4490-4506 | The thread waits for nothing and can run; the three counters still count the waits of the ring |
| Scheduler.Threads.FirstRunnable | eval.c:4554-4560 | The first thread behind the running one, around the ring, that is not stopped, or none if all are |
| Scheduler.Threads.JoinPass | eval.c:4562-4575 | Exactly the threads that wait for a dead one can run afterwards, the first of them next if there was no candidate; all others are as before |
| Scheduler.Threads.TimerPass | eval.c:4591-4614 | Exactly the threads whose time has come can run, the last of them around the ring next; the time noted is the earliest of the others |
| Scheduler.Threads.FdPass | eval.c:4638-4656 | For each ready descriptor the first waiter around the ring can run, and no other; the first of all is next if there was no candidate |
| Scheduler.Threads.OneTurn | eval.c:4577-4660 | A turn on one event wakes exactly the threads whose time has come and the first waiter of each ready descriptor; who is next, and whether `select` failed, follows from the event and the state before |
| Scheduler.Threads.AwaitEvents | eval.c:4577-4660 | One such turn for each event consumed, the next one exactly when nobody can run and some sleeper will; so every wait ends when its time or descriptor has come, and only then |
| Scheduler.Threads.Schedule | eval.c:4536-4690 | First the joins, then the turns, again from the start behind an interrupted `select`; the thread that runs is the candidate that these leave, and a deadlock is reported exactly when they leave none; counters, ring and statuses stay consistent |
| Scheduler.EventsHeeded | eval.c:4577-4660 | Whoever sleeps no longer than to the time of an event looked at, and whoever is the first to wait for a descriptor that it tells ready, can run when the scheduler is left |
| Scheduler.DeadlockMeans | eval.c:4661-4670 | A deadlock is reported only if no joined thread had died, no event looked at ended any wait, and nobody sleeps until a finite time |
| Scheduler.Threads.WaitFd | eval.c:4692-4703 | The scheduler runs with the thread waiting; within the call it comes back to its caller only after the descriptor was ready; every other wait lasts or ends for its own reason |
| Scheduler.Threads.WaitFor | eval.c:4723-4761 | The scheduler runs with the thread asleep; within the call it comes back to its caller only when the time is reached; every other wait lasts or ends for its own reason |
| Scheduler.Threads.SleepForever | eval.c:4981-4996 | Within the call it does not come back by itself |
| Scheduler.Threads.JoinThread | eval.c:4859-4876 | It refuses two threads that wait for each other, comes back at once from a dead thread, and from a live one not within the call |
| Scheduler.WaitLasts | eval.c:4536-4761 | Over any sequence of calls a wait lasts until a call makes the thread ready on purpose, or until what it waits for has come in some call |
| Scheduler.BackFromWait | eval.c:4692-4761 | A thread that has waited and waits for nothing any more, as the running thread does, was made ready on purpose or for its own reason |
| Scheduler.Threads.Wakeup | eval.c:4890-4900 | A thread that is not marked dead can run, in the ring or not; a dead one is refused; no other wait changes |
| Scheduler.Threads.RunThread | eval.c:4902-4910 | The thread can run and the scheduler runs with it, unless switching is forbidden |
| Scheduler.Threads.Kill | eval.c:4912-4926 | The thread is marked for killing and waits for nothing, and the scheduler runs with that; killing the main thread, or one that is its own successor, ends the program |
| Scheduler.Threads.Stop | eval.c:4948-4959 | The thread is stopped, the scheduler runs with that, and nothing but ended waits changes elsewhere |
| Scheduler.Threads.Pass | eval.c:4941-4946 | The next runnable thread around the ring gets its turn |
| Scheduler.Threads.Remove | eval.c:4508-4516 | The running thread leaves the ring, the scheduler runs from the thread before it, and all who waited for its end can run |
| Scheduler.Threads.Alloc | eval.c:5033-5082 | The new thread stands right behind the running one |
| StTable.Table.constructor | st.c:49-68 | An empty table; the size asked for is scaled so that no bin need be too full |
| StTable.Table.FindEntry | st.c:108-118 | The entry with the key, or none if no entry of the table has it |
| StTable.Table.Lookup | st.c:120-139 | What the map has for the key |
| StTable.Table.AddDirect | st.c:141-191 | The map with one more key, after a rehash when there are more than five entries a bin |
| StTable.Table.Insert | st.c:157-178 | The map updated at the key, and whether the key was there |
| StTable.Table.Rehash | st.c:216-245 | More bins, the same entry objects, each in the bin of its key |
| StTable.Table.Delete | st.c:288-329 | The map without the key, its former value, and the entries of all other keys untouched |
| StTable.Table.Copy | st.c:247-286 | A table of fresh entries with the same map, every bin in opposite order |
| StTable.Table.ForEach | st.c:371-405 | Each key is visited at most once, and all of them unless stopped; what remains is the map without the keys that the callback asked to delete |
| StTable.Table.NumEntriesIsSize | st.c:9-18 | The entry count is the number of keys |
| StTable.NumHashInRangeIff | st.c:429-435 | A number has a bin if and only if it is not negative or divisible by the number of bins |
| StTable.NumHashFails | st.c:429-435 | The failing case: the key -1 and 11 bins |
| StTable.StrHash | st.c:407-420 | The loop wraps around at every turn, and comes to the polynomial over the characters taken modulo 2^32 once |
| StTable.StrBinInRangeIff | st.c:407-420 | A string has a bin if and only if its sum is not the least `int`, or the number of bins divides that |
| StTable.StrBinFails | st.c:407-420 | The failing case: the string `@7+!<u`, whose sum is the least `int`, and 11 bins |
| Tr.List.Next | string.c:1417-1446 | The next character that a list with ranges stands for, or -1 at its end |
| Tr.SetupTable | string.c:1547-1569 | The table marks exactly the characters of the list, or all others behind a hat |
| Tr.Str.Delete | string.c:1571-1595 | In place: the characters that are not marked, in order |
| Tr.TransTable | string.c:1450-1531 | Each byte is sent to its replacement: the last pair counts, a short list is filled up with its last character, and a complemented list counts the bytes left out |
| Tr.ComplementRanks | string.c:1478-1506 | With a list that begins with a hat, the characters that are not listed become, in ascending order, what the second list stands for |
| Tr.ComplementByOne | string.c:1478-1506 | With a single replacement every character that is not listed becomes that one, and the others stay |
| Tr.Str.TrBang | string.c:1450-1531 | In place: every character replaced by its image; an empty replacement deletes |
| Uuencode.Encodes | pack.c:474-502 | One line: length, groups of four, newline, and no blank, whatever bytes follow the string in memory; blanks that were packed before become backquotes |
| Uuencode.Pack | pack.c:444-465 | The lines of the whole string, 45 bytes each |
| Uuencode.FullLine | pack.c:444-502 | As long as 45 bytes are left a line is an `M`, sixty characters and a newline |
| Uuencode.Unpack | pack.c:800-852 | The bytes of all lines, inside the space reserved for them |
| Uuencode.RoomEnough | pack.c:800-812 | The space reserved from the length of the text is never too small for an encoded string |
| Uuencode.UuRoundTrip | pack.c:444-852 | Decoding an encoded string gives it back |
| Uuencode.CrlfRoundTrip | pack.c:800-852 | So does decoding the text when its lines have come to end with a return and a newline |
| Uuencode.PackThenUnpack | pack.c:444-852 | The two methods one after the other are the identity on all byte strings |
| Base64.Encode64 | lib/base64.rb:39-48 | The result is the encoding of section 6.8 of RFC 2045 |
| Base64.Decode64 | lib/base64.rb:1-11 | Line by line, the text is decoded as `DecodedText` says |
| Base64.LineMeaning | lib/base64.rb:1-11 | A line of up to 85 alphabet characters, with anything between them, decodes to the bytes of its six-bit groups |
| Base64.SixBitsBack | lib/base64.rb:1-48 | Splitting into six-bit groups and joining them is the identity |
| Base64.Base64RoundTrip | lib/base64.rb:1-54 | Encoding, breaking at any multiple of four up to 84 characters and decoding gives back every byte string |
| Base64.EncodeThenDecode | lib/base64.rb:1-54 | The methods one after the other, with lines of 60 characters |
| RegexSets.SearchBegin | regex.c:454-461 | The first binary search finds the first interval that the new one may touch |
| RegexSets.SearchEnd | regex.c:463-470 | The second finds the end of those that it replaces |
| RegexSets.AddWide | regex.c:424-485 | The intervals in the bytes are spliced as `Added` says, stay sorted and apart, and nothing in front of them changes |
| RegexSets.SetListBits | regex.c:423-485 | Single bytes and wide characters of a range are added to a set |
| RegexSets.SplicedOrdered | regex.c:424-485 | The merged intervals are sorted and apart again |
| RegexSets.UnionIff | regex.c:424-485 | The new set is the union if and only if the last interval touched does not reach beyond the new range |
| RegexSets.UnionFails | regex.c:424-485 | The failing case: adding a part of an interval cuts off what is behind the part |
| RegexSets.FewRanges | regex.c:424-485 | So few intervals fit that the sums in the searches do not overflow |
| RegexSets.IsInList | regex.c:487-531 | What the search returns, for every character and set |
| RegexSets.InListDecides | regex.c:487-531 | It is not zero if and only if the character is in the set |
| RegexTree.ExtractIff | regex.c:256-283 | A jump keeps its distance if and only if that has 16 bits |
| RegexCompile.Buffer.GetSpace | regex.c:331-366 | The code stays, and there is room, or the limit is reached |
| RegexCompile.Buffer.StoreJump | regex.c:1454-1463 | The three bytes of a jump, and no others, change |
| RegexCompile.Buffer.InsertJump | regex.c:1466-1481 | The code behind moves up by three, and the jump stands in the gap |
| RegexCompile.Compiler.DoDollar | regex.c:647-693 | The end of a line before the end of an alternative, a group or the pattern, else a character |
| RegexCompile.Compiler.DoHat | regex.c:694-714 | The beginning of a line, refused behind an operand |
| RegexCompile.Compiler.Operators | regex.c:730-770 | A run of operators collapses to whether none and whether many are allowed |
| RegexCompile.Compiler.DoRepeat | regex.c:717-802 | The code of the loop around the last operand, refused without one |
| RegexCompile.Compiler.ReadBracket | regex.c:808-985 | The bitmap has exactly the characters of the text in brackets; the four errors are those of `SetRest` |
| RegexCompile.Compiler.DoOpen | regex.c:1032-1052 | A new group on the stack, refused past ten open ones |
| RegexCompile.Compiler.DoClose | regex.c:1054-1068 | The group and its alternatives become one operand, refused without an open one |
| RegexCompile.Compiler.DoBar | regex.c:1069-1099 | The alternative so far gets its choice in front and its jump behind |
| RegexCompile.Compiler.DoLiteral | regex.c:1380-1411 | The character joins the run before it or begins one |
| RegexCompile.Compiler.Token | regex.c:645-1412 | One token keeps the invariant that the code is that of the trees read so far, and the verdict on the rest; a token that is refused has the fault that `Blames` names |
| RegexCompile.Compiler.Compile | regex.c:548-1447 | The code is that of a syntax tree that spells the pattern, with the choices that the text forces; each refusal is the one that `Scan` reads off the pattern alone, and the pattern can be read as trees and open groups up to a place where that fault stands |
| RegexAccept.TakenIff | regex.c:548-1447 | A pattern that a proper tree spells is taken if and only if no more than ten of its groups are nested and there are less than 255 of them; it is refused for nothing else |
| RegexAccept.TreesDecide | regex.c:548-1447 | So a pattern within these limits is taken if any such tree spells it, and refused for its form only if none does |
| RegexAccept.TooManyOpens | regex.c:1032-1052 | A pattern with too many groups has as many parentheses |
| RegexState.CodeShort | regex.c:331-366 | A character of the pattern makes no more than twelve bytes of code, so that only long patterns reach the limit of the buffer |
| RegexPath.Through | regex.c:2207-2704 | Every path through the code of a tree that leaves it does so at its end, over a part of the string that the tree matches |
| RegexPath.Soundness | regex.c:2207-2704 | What the code accepts is in the language of the pattern |
| RegexComplete.Completes | regex.c:2207-2704 | Whatever the tree matches, its code has a path for |
| RegexComplete.ReachesIffMatches | regex.c:2207-2704 | The code reaches its end exactly where the tree matches |
| RegexFlow.FlowHolds | regex.c:2489-2567 | Jumps stay inside the code, and every command finds the failure points that it takes off |
| RegexEnds.LeavesAreEnds | regex.c:2489-2567 | Code without loops comes to the ends of the pattern in the order of its choices |
| RegexEnds.EndsAreMatches | regex.c:2489-2567 | These ends are exactly where the pattern matches |
| RegexEnds.LongestIff | regex.c:2244-2307 | Without loops the answer is the longest match if and only if no match is passed over: one of the last choices that stops short of the end of the string, with another, shorter match beside it |
| RegexEnds.LongestWhen | regex.c:2244-2307 | It is, on every string, when the last choices take no more than any others do |
| RegexEnds.NoBarIsFine | regex.c:2244-2307 | Patterns without alternatives are of that kind |
| RegexEnds.ShorterWins | regex.c:2244-2307 | The failing case: the alternatives `a` and `ab` on `abc` |
| RegexVm.Matcher.constructor | regex.c:2128-2236 | The start of a match, on code as compiled or as earlier matches rewrote it |
| RegexVm.Matcher.Push | regex.c:2003-2042 | One failure point more, with the registers up to the last one that is set, or there are as many as are allowed |
| RegexVm.Matcher.Pop | regex.c:2045-2055 | One failure point less |
| RegexVm.Matcher.Restore | regex.c:2722-2741 | Saved registers come back, the others are cleared; the flags of those saved stay as they are |
| RegexVm.Matcher.Backtrack | regex.c:2706-2745 | On from the latest failure point that is no dummy; it gives up only when there is none |
| RegexVm.Matcher.DoExactn | regex.c:2653-2703 | The run of characters is taken or the match fails, exactly |
| RegexVm.Matcher.DoCharset | regex.c:2426-2458 | One character of the set, or not of it, is taken |
| RegexVm.Matcher.DoStopMemory | regex.c:2324-2368 | The group is closed; a loop over it is left by force exactly when the flag says that it took nothing or the byte before the last one of the group has the code of `start_memory`; that happens in no loop over a single character |
| RegexVm.Matcher.DoOnFailureJump | regex.c:2489-2493 | Both ways on are kept: one is taken, one is a new failure point with the registers that are set |
| RegexVm.Matcher.DoFinalizeJump | regex.c:2549-2558 | The jump back, and the latest failure point, which is there, goes |
| RegexVm.Matcher.DoDummyFailureJump | regex.c:2560-2567 | The jump into the loop, with a failure point that stands for nothing |
| RegexVm.Matcher.MayFinalize | regex.c:2497-2541 | The test succeeds only where the code ends behind the loop or goes on with what the body cannot begin with; it misses such a place only when the bytes behind the code look like the end of a group |
| RegexVm.Matcher.DoMaybeFinalizeJump | regex.c:2497-2558 | The command rewrites itself, the code remains the code of the pattern, and the latest failure point goes only where the test succeeds |
| RegexVm.Matcher.Step | regex.c:2308-2704 | Any command changes registers, flags, stack and place exactly as `Did` says, and keeps the invariant: the place is reached by the code, and failure points are places reached too |
| RegexLoops.LoopOf | regex.c:2497-2558 | A command inside a loop over a single character is the body of such a loop or its end |
| RegexLoops.TurnIsOver | regex.c:2497-2558 | Where the test of `maybe_finalize_jump` succeeds, the way out from before a turn leads nowhere, or to the end of the code, and then the way out behind the turn leads there too, and further |
| RegexVm.TrackedStep | regex.c:2308-2704 | When all loops are over single characters, every command keeps this: failure points lie outside of loops, and inside a loop the latest one is the way out from before the character |
| RegexVm.TurnLosesNothing | regex.c:2549-2558 | The failure point that goes at the end of such a loop leads to no end that is not in reach without it |
| RegexVm.Matcher.Match | regex.c:2128-2751 | In `run` the variables change as each command says. It fails only when no command of the run was at the end of the code and the last one has no way on; the length is that of the end of the string, once that is reached, or else, with no way on, of the farthest end of the run, where the end reached last with an empty stack counts only if it is the first. A length returned is a match; for patterns whose loops are over single characters a failure means that nothing matches, and no match is longer than the answer or the one passed over; a stated number of steps is enough for these, and without loops the answer is the one of `Pick`; it gives up only at a command that pushes, with as many failure points as are allowed |
| RegexMachine.NeverEnds | regex.c:2706-2750 | What a failure means for the run: never at the end of the code, and the last command fails with no failure point left |
| RegexLoss.MatchIsLost | regex.c:2324-2368 | The failing case for loops over groups: a starred group of the alternatives `a?` and `b`, then `c`, matches `bbc`, and the matcher finds nothing, as it leaves the loop by force on a flag that was not put back |
| Regex.CompileAndMatch | regex.c:548-2751 | Compiler and matcher together: a pattern that a proper tree within the limits spells is refused only if it is long, any other for its form or its groups; the answer is that of a run of the code, and in the language of the pattern; for patterns whose loops are over single characters a failure means no match; without loops a longer match exists exactly when one is passed over |
| Regex.MatchTwice | regex.c:2128-2751 | The rewritten code answers later calls as soundly, and as completely, by runs of the code as compiled |
| MethodCache.Interp.ClearCache | eval.c:56-67 | No entry is live |
| MethodCache.Interp.SearchMethod | eval.c:83-97 | The first class of the chain that has the method |
| MethodCache.Interp.GetMethodBody | eval.c:99-134 | What a fresh walk tells, and an entry that tells the same |
| MethodCache.OwnOrInherited | eval.c:83-134 | A walk gives the method of the class itself with its visibility, nothing if that is undefined, and without one what the superclass has |
| MethodCache.AliasIsOriginal | eval.c:118-130 | A call by an alias is a call of the method it was made from, class and name included |
| MethodCache.Interp.FindMethod | eval.c:2804-2815 | With or without the cache, a call gets what a fresh walk tells |
| MethodCache.Interp.Define | eval.c:1878-1898 | The cache stays right if and only if it was cleared or no live entry is overtaken by the new method without happening to tell the same; a class whose table nobody shares is always safe |
| MethodCache.DefnKeepsIff | eval.c:1878-1898 | The same for one entry, on values |
| MethodCache.ReopenedModuleIsMissed | eval.c:1878-1898 | The failing case: a method defined in a module that was included before |
| MethodCache.Interp.Undefine | eval.c:1931-1945 | A call finds nothing afterwards; the cache stays right; an unknown name is refused |
| MethodCache.Interp.AlreadyIncluded | class.c:223-228 | Whether a class for that table is above already |
| MethodCache.Interp.Insert | class.c:184-202 | All chains through the class go through the new one, the others are as before |
| MethodCache.Interp.IncludeModule | class.c:204-234 | Above the class come the module and what it includes, in order, up to the first that is there already; the cache is empty and so right |

## Findings

Properties that one would expect and that the code does not have. Each has an input for which it fails, and most the exact
condition under which it holds.

| property | fails for | holds exactly when |
|---|---|---|
| the three numbers of `divmod` make up the dividend | `BignumDiv.SignedDivisionFails`: -(2^30+1) by 2 | `BignumDiv.SignedDivisionIff` |
| `>>` floors | `BignumShift.RightShiftFails`: -(2^30+1) by 1 | `BignumShift.RightShiftFloorsIff` |
| the decimal buffer is large enough | `BignumRadix.DecimalBufferFails`: 1113841 digits | `BignumRadix.DecimalBufferIff` |
| a power is in normal form | `BignumMul.ThreeToTheFirst`: `3 ** 1` | `BignumMul.BigPow`, `BignumMul.FixPow` |
| adding a range to a character set adds all of it and drops nothing | `RegexSets.UnionFails`: a part of an interval | `RegexSets.UnionIff` |
| a match that exists is found | `RegexLoss.MatchIsLost`: a starred group of `a?` and `b`, then `c`, on `bbc` | not stated both ways; always when all loops are over single characters, `RegexVm.Matcher.Match` |
| the longest match is chosen | `RegexEnds.ShorterWins`: `a` or `ab` on `abc` | `RegexEnds.LongestIff`; on every string when `RegexEnds.LongestWhen` |
| the method cache tells what a fresh walk would | `MethodCache.ReopenedModuleIsMissed` | `MethodCache.Interp.Define`, `MethodCache.DefnKeepsIff` |
| prime factors multiply back to the number | `Mathn.DivideAndMultiply`: every negative number | `Mathn.DivideAndMultiply` |
| a number has a bin | `StTable.NumHashFails`: -1 | `StTable.NumHashInRangeIff` |
| a string has a bin | `StTable.StrBinFails`: `@7+!<u` | `StTable.StrBinInRangeIff` |
| a mutex keeps two threads apart | `ThreadMutex.AlienUnlockHappens`: an unlock by a stranger | no thread passes the test of `unlock` while another holds: `ThreadMutex.MutualExclusion`, `ThreadMutex.ExclusionIff` |
| whoever waits for a mutex is served | `ThreadMutex.RelockHappens`: a holder that locks again | and no holder locks again: `ThreadMutex.SuspendedIsServed`, `ThreadMutex.ServedIff` |

## Left out

- BignumDiv.BigDivMod: the divisor must be normalised, as every bignum that the interpreter hands out is; the early out compares lengths and would be wrong otherwise.
- BignumMul.BigPow: exponents that are negative or floats, for which the code calls `pow` on doubles.
- BignumMul.FixPow: negative exponents, as above.
- BignumShift.BigLShift: the count -2^31, whose negation C leaves undefined.
- BignumRadix.Big2Str: numbers so long that the 32-bit size of the buffer wraps around; `DecimalBufferIff` says which.
- BignumRadix.Str2Inum: strings of 2^30 characters or more, whose size in bits wraps around.
- BignumRadix.StrToUL: its four loops, one for each base, are one loop; overflow is not reached from `str2inum`.
- BignumRadix.ReadsInBase: in base 16 a zero with an `x` behind it; `strtoul` takes the two for a prefix, also behind one, and goes on reading.
- Mathn.PrimeDivision: zero, on which the Ruby code does not end.
- Mathn.Gcd2: zero, for the same reason.
- Collector.Gc.Collect: finalizers, the objects of a running compilation, and the failure of `malloc`; roots are given as a list, words of the stack among them.
- Collector.Gc.Mark: the depth of the C stack.
- ThreadMutex.MutualExclusion: threads that are killed or raised at inside the methods are not modelled.
- ThreadQueue.NoLostWakeup: threads that are killed or woken from outside while they wait in `pop`.
- Scheduler.Threads.Schedule: what `select` reports is a recorded list of events; what the interpreter does on a deadlock, saving contexts, and `Thread#raise`.
- Scheduler.Threads.JoinThread: a thread that joins itself, or one that died and was then stopped.
- StTable.Table.constructor: the quotient by 4.35 is exact, where the code divides doubles.
- StTable.StrHash: `char` is signed here.
- StTable.Table.Rehash: the size grows by the exact product 179/100, where the code multiplies by the double 1.79 and truncates; an `int` number of bins does not overflow here.
- StTable.Table.Lookup: the hash is a parameter that stays inside the bins; the two hash functions of the code do so exactly as `NumHashInRangeIff` and `StrBinInRangeIff` say.
- StTable.Table.ForEach: a callback that itself changes the table.
- Tr.Str.TrBang: squeezing (`tr_s!`), and the check for frozen or shared strings.
- Uuencode.Pack: an explicit count after the directive.
- Base64.LineMeaning: lines of more than 85 characters, whose length does not fit the length byte.
- RegexSets.SetListBits: ranges from a wide character below 0x8000 to one above.
- RegexSets.InListDecides: intervals that begin with the byte 0xff, for which the code has a rule of its own; `IsInList` says what it returns.
- RegexCompile.Compiler.Compile: intervals `{n,m}`, the classes `\w \s \d` and their like, `\b`, `\B`, `\x`, octal escapes, back-references, characters above 127, translation tables and the fastmap. Such patterns get the outcome `Outside`.
- RegexCompile.Compiler.ReadBracket: the bitmap is built as a value and appended when it is complete.
- RegexVm.Matcher.Match: the number of steps is bounded, as a loop over a group may run forever in the code too. For loops over groups completeness is false (`RegexLoss.MatchIsLost`): besides the flag, a literal character with code 15 next to the last one of the group forces the way out, so that even a group without choices can lose a match; which of them lose none is not stated.
- RegexEnds.LongestIff: for patterns without loops; with loops only `RegexVm.Matcher.Match` bounds what is passed over.
- RegexVm.Matcher.MayFinalize: bytes behind the allocated buffer read as 0.
- RegexVm.Matcher.Restore: what the groups captured has no meaning in the pattern's language here.
- Regex.CompileAndMatch: code of 32768 bytes or more, whose jumps do not have 16 bits (`RegexTree.ExtractIff`).
- MethodCache.Interp.Define: `alias`, visibility changes and singleton methods; tables and classes are maps from numbers, and no two classes are at one address.
- MethodCache.Interp.IncludeModule: a class that is included into what it inherits from, which would make the chain endless.
- Strings, arrays, hashes, I/O, the parser and the evaluator, floating point, sprintf, time, bitwise operators on negative bignums: not modelled.
