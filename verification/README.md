# Verified model of the primecoin miner's core

The primecoin miner looks for chains of primes around numbers F·m, where F is the
block hash times a fixed multiplier. A sieve rules out multipliers m, the survivors
go through probable-primality tests, and results travel over a framed TCP protocol.
This project models the algorithms at the centre of it, in the form the C++ code has
(objects updated in place, arrays, loops), and proves them against independent
definitions: divisibility, integer arithmetic, a map, a stable sort, a recursive root,
a padded message, a parsed stream.

`dafny verify dfyconfig.toml` checks everything.

## Modules

* **Numbers.** `Words` (little-endian 32-bit words and their value), `Bits`,
  `NumberTheory`, `Bytes`, `Pointers`.
* **Multi-word arithmetic.** `BigNums` and `BigNumArith` (the sign-magnitude object and
  its in-place operations; the result may be an operand), `QuotientDigit`,
  `DivisionStep` and `Division` (long division: the digit estimate, one window, the
  whole run with signs), `ExtendedEuclid` and `ModInverse` (general inversion),
  `Uint256`.
* **The sieve.** `PrimeTable`, `SmallInverse`, `SieveBits`, `SieveSpec` (what a residue
  means), `SieveSetup` (residues of all layers), `SieveLayer` (one layer of one
  segment), `SieveApply` and `SieveCandidates` (combining layers and chain types),
  `SieveMeaning` (bitmaps as divisibility by the table's primes), `SieveScanSpec` and `Sieve` (the object: weaving, counting, scanning), `Mining` (one
  whole round: build or reuse, weave, count, scan; no prime chain lost).
* **Chains and targets.** `Target`, `EulerCriterion` (why no prime fails a test),
  `PrimalityTests`, `ChainTests`, `ChainTypes`.
* **Supporting structures.** `HashTable`, `StableSort` and `FastSorter`, `Sha256`,
  `Merkle`, `PacketBuffer`, `XptClient`.

A sieve word is a sequence of 64 bits, a number's words and other reallocated buffers
are sequences held in a field, fixed buffers are arrays.

## What the proofs found

* **Division overwriting its numerator.** When the quotient goes to the numerator's own
  object, `BN2_div` reads the numerator's sign after storing the quotient's sign there
  (src/primecoinMiner/bn2_div.cpp:161 and 310). With |num| at least |divisor|, a
  negative divisor and a remainder other than zero, the remainder's sign comes out
  wrong. `Division.DivisionLaw` proves that num = dv·divisor + rm holds if and only if
  it is not this case; `Division.SevenByMinusTwo` divides 7 by −2 this way and ends with
  −3 and −1.
* **Negative zero.** Right shifts keep the sign of a number they shift to zero, and
  `BN2_nnmod` of such a zero yields |d|, not 0. When the result goes to the divisor's own
  object, the remainder is subtracted from itself instead of corrected by the divisor, so
  every negative number gives zero. `Division.NNModLaw` says exactly when the
  result is the residue in [0, |d|).
* **Retargeting on target.** The target is left unchanged exactly when the fractional
  difficulty is at most the threshold and either above the minimum or with a length
  that cannot step down (`Target.OnTargetFixedPoint`).
* **Strings.** `writeString` accepts strings of up to maxStringLength − 1 bytes,
  `readString` refuses that longest length, although its comment asks for the same
  limit on both sides. `PacketBuffer.StringRoundTrip` has both halves.
* **Prime table.** Up to a limit of 65535² the table holds exactly the primes below it.
  Above, factor 65536 squares to zero in 32 bits, factor 65537 is taken for a prime whose
  square is 131073, and the prime 262147 is crossed out: no table that is returned is
  right. `PrimeTable.GeneratePrimeTable` has both halves for every 32-bit limit. The
  command line allows sieve sizes and prime limits of at most 40000000 and 200000000
  (src/primecoinMiner/main.cpp:1213 and 1261).
* **Fast bi-twin test.** It gives length zero when the first chain has fewer than two
  members. `ChainTests.FastRejectsEighteen` shows an origin the plain test accepts at
  length two and the fast test rejects, `ChainTests.VerdictsAgree` says exactly when the
  two verdicts agree, for every target, and `ChainTests.DeepTargetsAgree` that they always
  do from length three on (four with the pre-check of a solo miner).

## Model

| member | source | states |
|---|---|---|
| BigNums.LShift | src/primecoinMiner/bn2.cpp:367-402 | the result is a·2^n with a's sign and no leading zero word, also when it overwrites a |
| BigNums.RShift | src/primecoinMiner/bn2.cpp:277-329 | the result's magnitude is floor(\|a\| / 2^n) without leading zero words, also in place; its sign is a's unless every word is shifted out |
| BigNums.NumBitsOf | src/primecoinMiner/bn2.cpp:90-97 | the table look-up on the top word gives the length of the whole number's binary expansion |
| BigNumArith.UAdd | src/primecoinMiner/bn2.cpp:404-462 | \|a\| + \|b\|, normal and non-negative, also when the result is an operand |
| BigNumArith.Sub | src/primecoinMiner/bn2.cpp:177-226 | the signed difference for every combination of signs and sizes, also when the result is an operand |
| BigNumArith.RShift1 | src/primecoinMiner/bn2.cpp:241-275 | floor(\|a\| / 2), normal, in place or not |
| BigNumArith.LShift1 | src/primecoinMiner/bn2.cpp:331-365 | twice a with a's sign, in place or not |
| QuotientDigit.EstimateFromPrefix | src/primecoinMiner/bn2_div.cpp:191-241 | a digit estimated from the leading words only is the true digit or one more, for any lower words |
| QuotientDigit.EstimateAllOnes | src/primecoinMiner/bn2_div.cpp:205-206 | with equal leading words the largest digit is the true one or one more |
| QuotientDigit.EstimateDigit | src/primecoinMiner/bn2_div.cpp:207-240 | dividing two words by one and correcting with the third gives exactly the quotient of three words by two |
| DivisionStep.WindowDigit | src/primecoinMiner/bn2_div.cpp:193-280 | the digit guessed for any window below divisor·base is right or one too big, in all three cases |
| DivisionStep.ReduceWindow | src/primecoinMiner/bn2_div.cpp:282-302 | multiply, subtract and at most one add-back leave window = q·divisor + remainder with the remainder below the divisor |
| DivisionStep.RoundKeeps | src/primecoinMiner/bn2_div.cpp:191-303 | sliding the window keeps total = quotient so far · divisor · base^k + rest, with the rest below the divisor at its place |
| Division.DivideShifted | src/primecoinMiner/bn2_div.cpp:140-304 | all rounds on the normalised operands give the quotient and base times the remainder |
| Division.Div | src/primecoinMiner/bn2_div.cpp:40-323 | for every sign, size and sharing of results with operands: exact quotient and remainder magnitudes, the signs the code gives, failure exactly for a zero divisor or a numerator with leading zeros |
| Division.DivisionLaw | src/primecoinMiner/bn2_div.cpp:305-315 | the remainder is below the divisor, and num = dv·divisor + rm truncating toward zero holds if and only if the numerator's sign was not overwritten before being read |
| Division.SevenByMinusTwo | src/primecoinMiner/bn2_div.cpp:305-315 | dividing 7 by −2 over the numerator gives −3 and −1, which breaks the law |
| Division.NNMod | src/primecoinMiner/bn2.cpp:228-239 | the remainder in [0, \|d\|) congruent to m, \|d\| for a negative zero; when the result replaces d, zero for every negative m |
| Division.NNModLaw | src/primecoinMiner/bn2.cpp:228-239 | the result is the residue in [0, \|d\|) for every non-negative m; for a negative one if and only if it is not zero or, when the result replaces d, it is a multiple of d |
| ExtendedEuclid.EuclidStep | src/primecoinMiner/bn2.cpp:594-706 | a division step keeps both congruences, the alternating sign and the determinant |
| ExtendedEuclid.CoefficientsBounded | src/primecoinMiner/bn2.cpp:594-706 | coefficients never exceed the modulus |
| ExtendedEuclid.EndDivides | src/primecoinMiner/bn2.cpp:709-715 | when the remainder vanishes the last value divides a and n |
| ExtendedEuclid.CoprimeReachesInverse | src/primecoinMiner/bn2.cpp:594-740 | from any state of the loop on coprime arguments, the run ends at one with a coefficient that gives an inverse |
| ExtendedEuclid.InvertibleIffCoprime | src/primecoinMiner/bn2.cpp:735-740 | a number is invertible if and only if it has no common divisor with the modulus |
| ModInverse.DivMod | src/primecoinMiner/bn2.cpp:602-641 | the comparisons chosen by bit length give the true quotient and remainder |
| ModInverse.Combine | src/primecoinMiner/bn2.cpp:675-700 | every shortcut computes D·X + Y |
| ModInverse.Round | src/primecoinMiner/bn2.cpp:592-706 | the rotated objects hold (B, A mod B, Y + D·X, X) and are the same objects |
| ModInverse.Inverse | src/primecoinMiner/bn2.cpp:588-747 | terminates, for every sign of a and with any result object, the modulus included; the inverse in [0, n) exactly when gcd(a, n) is one, else the result is untouched |
| NumberTheory.InvertibleIsCoprime | src/primecoinMiner/bn2.cpp:735-740 | invertible numbers have no common divisor with the modulus |
| NumberTheory.InverseUnique | src/primecoinMiner/prime.cpp:1455-1496 | two inverses in range are equal, so the inversion routines agree |
| SmallInverse.IntInvert | src/primecoinMiner/prime.cpp:1455-1496 | terminates for every prime below 2^31 and residue other than zero, no 32-bit overflow, result the inverse in (0, p) |
| SmallInverse.SingleModinv | src/primecoinMiner/prime.cpp:1152-1214 | the unsigned variant: the inverse in (0, m) for coprime arguments, all values in range |
| SmallInverse.Ladder | src/primecoinMiner/prime.cpp:1164-1201 | nine unrolled subtractions or the division give the true quotient times the coefficient and the true remainder |
| PrimeTable.GeneratePrimeTable | src/primecoinMiner/prime.cpp:50-68 | up to the limit 65535² it returns exactly the primes below the limit, ascending; above, no table it returns is right |
| PrimeTable.TableServesSieve | src/primecoinMiner/prime.cpp:50-68 | from the fifth entry on primes are odd, at least 11 and below 2^31 |
| PrimeTable.UncrossedIsPrime | src/primecoinMiner/prime.cpp:55-67 | once f² passes n, n is prime exactly when no smaller factor crossed it out |
| SieveSpec.HitIffResidue | src/primecoinMiner/prime.cpp:1611-1613 | p divides F·i·2^k − 1 exactly for i in the stored residue class, F·i·2^k + 1 exactly for its negative |
| SieveSpec.NextLayer | src/primecoinMiner/prime.cpp:1601-1632 | multiplying by (p + 1)/2 turns a layer's residue into the next layer's |
| SieveSetup.CombinePrimes | src/primecoinMiner/prime.cpp:1572-1581 | the group's product fits 32 bits, is never empty and is divisible by every prime grouped |
| SieveSetup.NextInverse | src/primecoinMiner/prime.cpp:1603-1632 | the 32-bit path equals the 64-bit path whenever it is chosen |
| SieveSetup.SetUpResidues | src/primecoinMiner/prime.cpp:1566-1638 | every prime not dividing F gets, in every layer, its first ruled-out multiplier of both kinds; the others are marked absent; the error exit is never taken |
| SieveBits.RotateMask | src/primecoinMiner/prime.cpp:1514-1520 | the rotated mask is the mask of the next multiple |
| SieveLayer.HitPeriod | src/primecoinMiner/prime.cpp:1516-1520 | the multipliers a prime rules out repeat with the prime as period, and only those are ruled out |
| SieveLayer.MarkPrime | src/primecoinMiner/prime.cpp:1508-1521 | sets exactly the segment's multipliers the prime rules out, keeps other bits, resumes at the first ruled-out multiplier after the segment |
| SieveLayer.ProcessMultiplier | src/primecoinMiner/prime.cpp:1500-1530 | the segment of one layer holds exactly what some woven prime rules out; other words and other layers' positions are kept |
| SieveApply.ApplyLayer | src/primecoinMiner/prime.cpp:1682-1750 | or-ing a layer into one row extends exactly its three conditions by that layer; other rows are kept |
| SieveCandidates.CombineKeeps | src/primecoinMiner/prime.cpp:1753-1764 | candidate bits of a finished segment are exactly the survivors |
| SieveCandidates.ExtensionMeaning | src/primecoinMiner/prime.cpp:1713-1750 | layers from offset e + 1 at multiplier i mean the default layers at i·2^(e+1) |
| Sieve.CSieveOfEratosthenes.constructor | src/primecoinMiner/prime.h:202-252 | sizes, cleared bitmaps, absent multipliers, nothing shared |
| Sieve.CSieveOfEratosthenes.Init | src/primecoinMiner/prime.h:274-339 | with unchanged sizes the reused object is as the constructor leaves it, for the new hash |
| Sieve.CSieveOfEratosthenes.Weave | src/primecoinMiner/prime.cpp:1537-1774 | for every segment size: a default bit is set if and only if a woven prime of at least 11 divides F·i·2^k − 1 or + 1 for a layer k of its bitmap, an extension bit likewise for i·2^(e+1), a candidate bit unless all three are |
| Sieve.CSieveOfEratosthenes.DefaultMeaning | src/primecoinMiner/prime.cpp:1682-1756 | bit i of each default bitmap if and only if a woven prime divides a chain member of a layer in that bitmap's range |
| Sieve.CSieveOfEratosthenes.ExtensionBits | src/primecoinMiner/prime.cpp:1713-1764 | upper-half bits of extension e state the default condition for i·2^(e+1); lower-half candidates are clear |
| SieveMeaning.ConditionsMean | src/primecoinMiner/prime.cpp:1682-1756 | with a table that starts 2, 3, 5, 7 the three conditions are divisibility by a woven prime of at least 11, over nChainLength, (nBTChainLength + 1)/2 and nBTChainLength/2 layers |
| Sieve.CSieveOfEratosthenes.GetCandidateCount | src/primecoinMiner/prime.h:343-380 | the number of candidate bits of the default bitmap and of the extensions' upper halves |
| Sieve.CSieveOfEratosthenes.NoLowerBits | src/primecoinMiner/prime.cpp:1757-1764 | a woven sieve has no candidate bits in the lower halves of its extensions, so these are all its candidate bits |
| Sieve.CSieveOfEratosthenes.GetNextCandidateMultiplier | src/primecoinMiner/prime.h:386-480 | delivers the first candidate bit behind the scan's position, further on in its bitmap or from the middle of a later extension, with its multiplier and chain type, or resets the scan |
| Sieve.CSieveOfEratosthenes.ScanAll | src/primecoinMiner/prime.h:386-480 | from reset to reset: delivers i for every default bit above zero, i·2^(e+1) for every upper-half bit of extension e, and nothing else |
| Sieve.CSieveOfEratosthenes.ScanTwice | src/primecoinMiner/prime.h:386-480 | two runs one after the other deliver the same multipliers with the same chain types |
| Sieve.CSieveOfEratosthenes.ScanCount | src/primecoinMiner/prime.h:343-480 | the scan delivers one less than the count |
| Sieve.CSieveOfEratosthenes.ZeroCandidate | src/primecoinMiner/prime.h:386-432 | multiplier zero always survives, so every count includes it |
| Sieve.CSieveOfEratosthenes.ScanExact | src/primecoinMiner/prime.h:386-480 | delivered exactly when reachable, not zero and surviving, each with the first of bi-twin, first and second kind that is not ruled out |
| SieveScanSpec.RestIncreases | src/primecoinMiner/prime.h:408-479 | delivered multipliers strictly increase across the default part and all extensions |
| Mining.SieveRound | src/primecoinMiner/prime.cpp:896-947 | on a new sieve or a reused one, weave, count and scan together: the count is all set bits, one more than delivered; strictly increasing, exactly the reachable multipliers above zero with a chain type left, and no woven prime of at least 11 divides a number of the chain delivered; every reachable chain of large primes delivered |
| Mining.PrimeChainSurvives | src/primecoinMiner/prime.cpp:1682-1764 | a multiplier whose chain of the target length consists of primes above all woven ones is never sieved out |
| Target.ReadThenWrite | src/primecoinMiner/prime.cpp:544-561 | reading the fractional difficulty and writing it back leaves every 32-bit target unchanged |
| Target.TargetGetNext | src/primecoinMiner/prime.cpp:599-631 | never fails to write; without overflow the next target from E with E·den ≤ D·num < (E + 1)·den, kept within 2^32 and 2^56; in 64-bit arithmetic otherwise; a zero denominator throws |
| Target.RetargetScales | src/primecoinMiner/prime.cpp:602-627 | multiply by (nInterval + 1)·nTargetSpacing first, divide once by (nInterval − 1)·nTargetSpacing + 2·nActualSpacing |
| Target.ScalesUnique | src/primecoinMiner/prime.cpp:602-627 | those bounds determine the next target |
| Target.LengthStepsByOne | src/primecoinMiner/prime.cpp:616-627 | from lengths 6 to 254 the length moves by at most one and never below 6 |
| Target.SlowerBlocksNeverRaise | src/primecoinMiner/prime.cpp:599-631 | the new target does not increase with the actual spacing |
| Target.OnTargetFixedPoint | src/primecoinMiner/prime.cpp:599-631 | on-target spacing leaves the target unchanged if and only if the stated condition on difficulty and length holds |
| PrimalityTests.FermatProbablePrimalityTest | src/primecoinMiner/prime.cpp:315-340 | passes exactly when 2^(n−1) is one modulo n, as every odd prime does; a failure records f with f·n ≤ (n − R)·2^24 < (f + 1)·n for that remainder R, below 2^24 |
| PrimalityTests.OddDividesNoPower | src/primecoinMiner/prime.cpp:332-337 | for odd n above one the remainder is not zero, so the error exit is not reachable |
| PrimalityTests.EulerLagrangeLifchitzPrimalityTest | src/primecoinMiner/prime.cpp:351-417 | 2^((n−1)/2) has to be 1 for residues 7 and 1 modulo 8, n − 1 for 3 and 5; every prime of a known residue passes; a failure records the fraction of the Fermat remainder; errors exactly on other residues |
| PrimalityTests.EllImpliesFermat | src/primecoinMiner/prime.cpp:377-402 | whoever passes also passes Fermat's test |
| PrimalityTests.PrimePasses | src/primecoinMiner/prime.cpp:376-402 | no odd prime fails either test |
| EulerCriterion.TwoPowerModPrime | src/primecoinMiner/prime.cpp:376-389 | for an odd prime p, 2^((p−1)/2) is 1 modulo p if p is 1 or 7 modulo 8, else p − 1 |
| ChainTests.LaterMembersValid | src/primecoinMiner/prime.cpp:676-700 | after an odd first number above one every later number is in a valid case |
| ChainTests.ProbableCunninghamChainTest | src/primecoinMiner/prime.cpp:715-742 | length and fraction of the chain's first failing number; true for at least two |
| ChainTests.ProbableCunninghamChainTestFast | src/primecoinMiner/prime.cpp:642-706 | rejected exactly by the first number or the pre-check, else the report of its own first failing number |
| ChainTests.FastStopsWherePlainStops | src/primecoinMiner/prime.cpp:655-703 | when the tests agree on the two skipped numbers the fast loop ends where the plain one does |
| ChainTests.RejectedChainIsShort | src/primecoinMiner/prime.cpp:655-674 | a chain the pre-check rejects is shorter than the target |
| ChainTests.EndUnique | src/primecoinMiner/prime.cpp:676-700 | a chain ends at one place only |
| ChainTests.EndExists | src/primecoinMiner/prime.cpp:676-700 | any later number that fails gives the chain its end, at or before it |
| ChainTests.ReportMeans | src/primecoinMiner/prime.cpp:332-337 | a report is the length in the top byte over the floor of the failing number's remainder distance, in 2^24ths of it |
| ChainTests.PrimeChainCounts | src/primecoinMiner/prime.cpp:715-742 | a chain that starts with m primes is counted at least m long and never turned down by its first number |
| ChainTests.BiTwinWholePart | src/primecoinMiner/prime.cpp:793-798 | the bi-twin whole part is min(2·L1, 2·L2 + 1), the fraction that of the side that limits it |
| ChainTests.ProbablePrimeChainTest | src/primecoinMiner/prime.cpp:779-803 | the verdict is whether one of the three lengths reaches the target, with or without the full test |
| ChainTests.ProbablePrimeChainTestFast | src/primecoinMiner/prime.cpp:811-853 | the length and verdict for every target; for deep enough targets it accepts exactly what the plain test of the wanted chain type accepts, with the same length |
| ChainTests.VerdictsAgree | src/primecoinMiner/prime.cpp:779-853 | fast and plain verdict agree if and only if the target is zero, or beyond the plain length, or no chain was rejected on the way and the first side of a bi-twin has two members |
| ChainTests.DeepTargetsAgree | src/primecoinMiner/prime.cpp:779-853 | from length one, three for bi-twins, on (two and four with the pre-check) the verdicts agree, and so do accepted lengths |
| ChainTests.FastRejectsEighteen | src/primecoinMiner/prime.cpp:833-848 | around 18 the bi-twin chain has length two in the plain test and zero in the fast one |
| HashTable.HashTable.Get | src/primecoinMiner/jhlib/hashTable_uint32.cpp:171-194 | the value of the key in the table's map, else NULL |
| HashTable.HashTable.Set | src/primecoinMiner/jhlib/hashTable_uint32.cpp:96-152 | changes that key's value and no other, through probing, growth at three quarters full and growth at the scan limit; no growth unless needed; cut short only when the keys use up the largest table in reach |
| HashTable.HashTable.Enlarge | src/primecoinMiner/jhlib/hashTable_uint32.cpp:47-71 | at least doubles the size and keeps every value, nested growth included; cut short only when the keys use up the largest table in reach |
| HashTable.RunSets | src/primecoinMiner/jhlib/hashTable_uint32.cpp:96-194 | any run of sets on a new table of size one or more leaves the map of those sets; cut short only by keys that can use up memory, never by 32 keys or fewer |
| HashTable.FewKeysFit | src/primecoinMiner/jhlib/hashTable_uint32.cpp:96-152 | 32 keys or fewer cannot use up a memory that has room for 89 slots |
| HashTable.LastSetWins | src/primecoinMiner/jhlib/hashTable_uint32.cpp:96-194 | that map holds the last value set for a key, unless NULL |
| HashTable.NeverSet | src/primecoinMiner/jhlib/hashTable_uint32.cpp:96-194 | a key never set has no entry |
| HashTable.Inserted | src/primecoinMiner/jhlib/hashTable_uint32.cpp:104-120 | filling the free slot a probe ended at keeps every item reachable within the scan limit |
| StableSort.StableSortedIsStableSort | src/primecoinMiner/jhlib/fastSorter.cpp:130-164 | the reference order is sorted, a permutation, and keeps the order of equal values |
| StableSort.SortNonNull | src/primecoinMiner/jhlib/fastSorter.cpp:147-149 | skipping empty items before or after sorting makes no difference |
| FastSorter.AttachRepresents | src/primecoinMiner/jhlib/fastSorter.cpp:76-123 | the writes at the end of a descent make the nodes represent the tree with the new item |
| FastSorter.TreeInsertItems | src/primecoinMiner/jhlib/fastSorter.cpp:80-104 | in order, that is insertion after everything not greater |
| FastSorter.RebaseRepresents | src/primecoinMiner/jhlib/fastSorter.cpp:47-55 | correcting every link by the distance the block moved keeps the tree, wrapping included |
| FastSorter.FastSorter.Add | src/primecoinMiner/jhlib/fastSorter.cpp:34-128 | adds the item last, growing by four or by half if allowed, or drops it when full |
| FastSorter.FastSorter.TraverseAscending | src/primecoinMiner/jhlib/fastSorter.cpp:130-164 | the callbacks are the added items that are not null, stably sorted; the stack stays within its limit |
| FastSorter.SortItems | src/primecoinMiner/jhlib/fastSorter.cpp:24-164 | clearing, adding any items with growth allowed and traversing calls back the items that are not null, stably sorted |
| Sha256.Sha256Context.Update | src/primecoinMiner/sha256.cpp:187-224 | state folds all whole blocks so far, buffer holds the rest, the 64-bit total is exact modulo 2^64 |
| Sha256.Sha256Context.Finish | src/primecoinMiner/sha256.cpp:234-261 | the digest of the message padded as in section 5.1.1 of FIPS 180-2 |
| Sha256.PadLengthLeast | src/primecoinMiner/sha256.cpp:247-248 | the padding is the least that leaves eight bytes in the last block |
| Sha256.BitLength | src/primecoinMiner/sha256.cpp:240-242 | the shifted words of the byte count are the bit length modulo 2^64 |
| Sha256.PaddedBytes | src/primecoinMiner/sha256.cpp:226-254 | the padded message is the message, 0x80, zeros and the bit length in eight bytes |
| Sha256.DigestWord | src/primecoinMiner/sha256.cpp:234-261 | bytes 4i to 4i + 3 of the digest are word i of the final state, most significant first, from the eight initial words |
| Sha256.HashPieces | src/primecoinMiner/sha256.cpp:187-261 | however a message is cut into updates, the hash is that of the whole |
| Merkle.CalculateMerkleRoot | src/primecoinMiner/transaction.cpp:235-329 | the recursive root of the first 32 hashes, zeros for none; buffer, layer and read indices in bounds, error exit not reachable |
| Merkle.HashLayer | src/primecoinMiner/transaction.cpp:305-320 | one pass writes the double hashes of the layer's pairs right behind it |
| Merkle.RootOfTwo | src/primecoinMiner/transaction.cpp:305-320 | the root of two hashes is the double hash of both in order |
| Merkle.RootOfHalves | src/primecoinMiner/transaction.cpp:235-329 | the root of 2^(k+1) hashes is the double hash of the roots of its halves in order |
| Merkle.RootOfOdd | src/primecoinMiner/transaction.cpp:266-304 | an odd number of hashes has the root with its last one doubled |
| PacketBuffer.PacketBuffer.ChangeSizeLimit | src/primecoinMiner/xptPacketbuffer.cpp:31-37 | keeps the common part, clamps size and cursor |
| PacketBuffer.PacketBuffer.WriteNumber | src/primecoinMiner/xptPacketbuffer.cpp:159-202 | what is read back at the same place is what was written, nothing else changes; without room nothing happens |
| PacketBuffer.PacketBuffer.ReadNumber | src/primecoinMiner/xptPacketbuffer.cpp:88-136 | the little-endian number at the cursor, or zero with the cursor at the end |
| PacketBuffer.PacketBuffer.WriteString | src/primecoinMiner/xptPacketbuffer.cpp:236-282 | writes the encoded string or nothing |
| PacketBuffer.PacketBuffer.ReadString | src/primecoinMiner/xptPacketbuffer.cpp:288-331 | reads what decoding the rest of the data gives |
| PacketBuffer.StringRoundTrip | src/primecoinMiner/xptPacketbuffer.cpp:236-331 | a written string is read back unless its length is the largest writing allows, in which case reading fails |
| PacketBuffer.StringBytes | src/primecoinMiner/xptPacketbuffer.cpp:236-282 | the length in one byte for limits up to 256, else in two, low byte first, then the string |
| PacketBuffer.HeaderBytes | src/primecoinMiner/xptClient.cpp:285-288 | byte 0 of a header is the opcode, bytes 1 to 3 the size, low byte first |
| PacketBuffer.FrameBytes | src/primecoinMiner/xptPacketbuffer.cpp:224-230 | a frame is opcode, size and payload in that layout |
| PacketBuffer.PacketBuffer.FinalizeWritePacket | src/primecoinMiner/xptPacketbuffer.cpp:224-230 | up to the cursor the buffer holds the frame of the opcode and payload written |
| XptClient.FramesParse | src/primecoinMiner/xptClient.cpp:276-315 | the frames of any packets below the size limit, empty ones included, parse to exactly those packets |
| XptClient.FirstHeader | src/primecoinMiner/xptClient.cpp:279-315 | sizes from 2 MB − 4 on are refused, a partial packet is left over, a whole one is taken off |
| XptClient.ParseMore | src/primecoinMiner/xptClient.cpp:243-315 | bytes to come are parsed together with the unfinished rest |
| XptClient.XptClient.Process | src/primecoinMiner/xptClient.cpp:243-332 | after every call the handlers have been given exactly the packets of the whole stream so far |
| XptClient.ReceiveStream | src/primecoinMiner/xptClient.cpp:243-332 | however few bytes each call brings, a stream is delivered as if parsed in one piece |
| Uint256.BaseUint.Plus | src/primecoinMiner/uint256.h:148-158 | the sum modulo 2^256, also of a number with itself |
| Uint256.ModulusIs | src/primecoinMiner/uint256.h:25-37 | the modulus of all of these is 2^256 |
| Uint256.BaseUint.Minus | src/primecoinMiner/uint256.h:160-164 | the difference modulo 2^256, by complement and carry |
| Uint256.BaseUint.Increment | src/primecoinMiner/uint256.h:183-190 | one more modulo 2^256, the carry stopping at the first word that does not wrap |
| Uint256.BaseUint.Decrement | src/primecoinMiner/uint256.h:200-207 | one less modulo 2^256, likewise |
| Uint256.BaseUint.ShiftLeft | src/primecoinMiner/uint256.h:114-129 | times 2^n modulo 2^256, for every n |
| Uint256.BaseUint.ShiftRight | src/primecoinMiner/uint256.h:131-146 | floor division by 2^n, for every n |
| Uint256.BaseUint.Less | src/primecoinMiner/uint256.h:218-228 | the order of the numbers |
| Uint256.BaseUint.Equal | src/primecoinMiner/uint256.h:266-272 | equality of the numbers, both ways |
| Uint256.PlusThenMinus | src/primecoinMiner/uint256.h:148-164 | subtracting what was added restores the number, overflow included |
| Uint256.DoubleThenMinus | src/primecoinMiner/uint256.h:148-164 | a number subtracted from itself after doubling in place is zero, as the operand changes too |
| Uint256.ShiftThereAndBack | src/primecoinMiner/uint256.h:114-146 | shifting left and back returns the number if and only if no bit was shifted out |
| Uint256.NegateTwice | src/primecoinMiner/uint256.h:50-57 | negating twice restores the number |

## Preconditions taken from the code

* Numbers given to `BN2_div` and `BN2_mod_inverse` fit its fixed scratch of 512 bytes:
  the numerator has at most 125 words, the divisor at most 126.
* Sieve sizes are multiples of twice the word width, segment sizes of the word width
  (as src/primecoinMiner/prime.cpp:1641 asks), (nBTChainLength + 1)/2 is at most
  nChainLength, and sizes, segment lengths, largest prime and scaled multipliers stay
  within 32 bits.
* The prime table is at least nine entries longer than the primes woven: the grouping
  loop (src/primecoinMiner/prime.cpp:1576) reads ahead without a bound.
* Chain tests start from an odd number above one, as the even origins of the miner give;
  the single tests from a positive number.
* A chain test is given a chain that comes to an end (some later number fails), with
  fewer than 256 members where a length is reported; the pre-check shifts a 32-bit one,
  so its depth is 2 to 32.
* A sieve is reused for another round with unchanged sizes, chain lengths and prime
  table, as the miner's settings give.
* The sorter is cleared before it is used; a hash table has at least one slot.

## Left out

- The binary branch of BN2_mod_inverse (src/primecoinMiner/bn2.cpp:507-587): its helper
  never advances its word index, so it does not compute what its comments state on
  odd values of several words.
- OpenSSL's and GMP's own routines: bn_mul_words, bn_sub_words, bn_add_words and
  bn_div_words are implemented here, BN_mul and BN_mul_word by their meaning, modular
  exponentiation is 2^e modulo n. That a number which passes is prime is not claimed.
- BigNums.BigNum: words are a sequence in a field; two numbers share storage only by
  being the same object, not through overlapping buffers.
- Sieve.CSieveOfEratosthenes.Weave: no early stop on a new block; the disabled path for
  small fixed multipliers is not modelled.
- Sieve.CSieveOfEratosthenes.Init: reuse with other sizes or chain lengths, which
  replaces the storage, is not modelled.
- SieveBits.RotateMask: words of 64 bits; a build with 32-bit words is the same argument.
- ChainTests.ProbableCunninghamChainTest: termination is assumed through an ending
  chain; proving that one exists is number theory outside this code.
- HashTable.HashTable.Set: of a call cut short because no larger table can be allocated,
  only the reason is stated, not what is left of the table; string keys and the unused
  removal of entries are not modelled.
- FastSorter.FastSorter.Add: links are 32-bit addresses as the code computes them; a
  64-bit build truncates them, and growing past 2^32 nodes is not modelled. The callback
  does not touch the sorter.
- Sha256.Digest: the compression of a block is any function of state and block; round
  constants and the message schedule are left out.
- Merkle.CalculateMerkleRoot: the 8192-byte buffer is an array of 256 hashes; the
  printed warnings are left out.
- XptClient.XptClient.Process: sockets, pings, share queues and the handlers' own work;
  a handler is a predicate on the packet. The server's receive loop, which does not
  clear its size after a packet, is not part of this model.
- Uint256.BaseUint.Less: the other three orderings are the same loop with the tests
  exchanged; bitwise operators, hexadecimal text and the 160-bit variant are left out.
- Target: the mint value, printing, and difficulty as floating point.
- Threads, timers, HTTP and JSON-RPC, console output, share statistics, Base58, images
  and noise: plumbing around these algorithms.
