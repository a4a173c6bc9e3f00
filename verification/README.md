# Verified models of Lapis Monetae's core

This project models five parts of the Lapis Monetae node and wallet in Dafny and proves what they are for.

* **Wide unsigned integers** (`math/src/uint.rs`, `math/src/lib.rs`). A number is a sequence of any number of
  64-bit limbs, least significant first, and `Limbs.Value` is the integer it denotes. Every operation is a method
  with the source's own loops, proved against plain integers for every limb count: carry chains, shifts,
  schoolbook multiplication, bitwise long division, decimal printing, conversion to IEEE 754 double precision, and
  the compact target encoding of 256-bit targets.
* **The address checksum** (`wallet-gui/wallet_app/validators.py`). The 40-bit state machine is shown to be
  long division of polynomials over the field of 32 elements. Completion and the detection of bursts and of pairs
  of errors follow for addresses of every length; the order of x modulo the generator decides the pairs.
* **Cached stores** (`database`). A size-tracked cache that evicts at random stands in front of a map store and a
  set store, with direct and batched writers. Eviction is an arbitrary choice, so every statement holds for every
  choice. Whole runs are compared with the same store without
  a cache, and that with plain maps and sets.
* **Step protocols** (`notify`, `utils`). The broadcasting plan, the single-item expiring cache, the file-descriptor
  budget and the discrete-event simulator are state machines whose invariants hold over every run and interleaving.
* **Mass chunking** (`mining/src/manager.rs`). The greedy chunker is proved optimal.

Modules follow the source's components: `Wrappers`, `Arith`, `Words` and `Limbs` are the ground floor, the `Uint*`
modules and `CompactTarget` the arithmetic, `Checksum`, the `Code*` modules, `Address` and `AddressFormat` the
addresses, `EntryCache`, `Database`, `MapStore`, `SetStore`, `SetItem` and the `*Runs` and `*Refinement` modules the
stores, `ExpiringCache` and `ExpiringCalls`, `FdBudget` and `FdRequests`, `Simulation` and `SimulationLog` the
protocols. I/O, clocks and random choices are
parameters or nondeterminism: clock readings, send outcomes and process behaviour are arbitrary inputs.

## Where the code does less than it seems to promise

Each of these has inputs that fail, in a lemma or method of their own, and an exact condition.

* The flag of `overflowing_mul` is not "the product overflowed". It misses products whose only excess lies in limb
  pairs that the loop skips (`UintMul.FlagMissesOverflow`). The product fits if and only if the flag is down and no
  skipped pair has two nonzero limbs (`UintMul.OverflowingMul`).
* `as_f64` says that adding the mantissa saturates the exponent. Up to 2^1024 + 2^971 the result is correctly rounded;
  above that it is not a number, and from 2^1025 - 2^971 on the exponent runs into the sign bit and the result is a
  negative double (`UintFloat.AsF64`). Of the values 2^r + 2^(r-52) the one for r = 1024 is not a number
  (`UintFloat.NextIsNaN`), and 2^1025 becomes negative zero (`UintFloat.NegativeZero`).
* With a batch writer the map store can serve a deleted value after the commit (`MapStoreRuns.StaleAfterCommit`), and
  the set store a set without an element written (`SetStoreRuns.StaleAfterCommit`). A read is right and keeps cache and
  database in agreement exactly when the last operation of the open batch on what is read leaves it as it was
  (`MapStoreRuns.ReadExactly`, `SetStoreRuns.ReadExactly`). The single-set store does not have this problem
  (`SetItem.Run`).
* Buckets of the set store interfere when key bytes begin one another (`SetStore.KeysInterfere`): a write exactly when
  one key's bytes begin another's followed by the element (`SetStore.WriteLeavesBucket`), a bucket delete exactly when
  either key's bytes begin the other's (`SetStore.ClearLeavesBucket`).
* A caller of the expiring cache that is cancelled while it owns the refetch flag leaves the flag set for good
  (`ExpiringCache.StuckAfterCancel`, `ExpiringCache.StuckForGood`). Nothing else does (`ExpiringCache.HeldExactly`).
* The file-descriptor budget can be exceeded after a negative request or one whose 32-bit sum wraps
  (`FdBudget.NegativeBreaksBudget`, `FdBudget.WrapBreaksBudget`). Those are exactly the admissions from which requests
  that are otherwise in order can come to hold more than the limit (`FdBudget.BudgetExact`).
* The checksum misses two wrong characters exactly when they lie a multiple of 1025 characters apart and change their
  symbols alike (`Address.TwoErrorsExactly`), which happens in every address that long (`Address.TwoErrorsMissed`).

## Model

| member | source | states |
|---|---|---|
| `UintLinear.CarryingAdd` | math/src/uint.rs:114-119 | the word and the carry together are the full sum of two words and a carry; joining two carry flags by inequality never loses one |
| `UintLinear.BorrowingSub` | math/src/uint.rs:145-150 | the word and the borrow together are the exact difference |
| `UintLinear.OverflowingAdd` | math/src/uint.rs:111-127 | for every limb count the result and the carry denote the integer sum |
| `UintLinear.OverflowingAddU64` | math/src/uint.rs:129-140 | stopping the ripple at the first limb without a carry still gives the integer sum and carry |
| `UintLinear.AddU64Agrees` | math/src/uint.rs:111-140 | adding a word and adding that word widened to all limbs give the same limbs and the same carry |
| `UintLinear.OverflowingSub` | math/src/uint.rs:142-159 | the result is the difference modulo 2^(64n), and the borrow is raised exactly when the subtrahend is larger |
| `UintLinear.Sub` | math/src/uint.rs:551-561 | integer subtraction, and the difference modulo 2^(64n) where a release build underflows |
| `UintLinear.SaturatingSub` | math/src/uint.rs:161-165 | integer subtraction clamped at zero |
| `UintLinear.SaturatingAdd` | math/src/uint.rs:167-171 | integer addition clamped at 2^(64n) - 1 |
| `UintLinear.Compare` | math/src/uint.rs:517-525 | limb comparison from the top is the order of the integers, in all three outcomes |
| `UintLinear.AtLeastWord` | math/src/uint.rs:479-489 | comparing limbs with a single word is comparing the integers |
| `UintShift.Bits` | math/src/uint.rs:50-59 | the bit length of the whole integer, zero included |
| `UintShift.LeadingZeros` | math/src/uint.rs:55-55 | the zero bits counted from bit 63 down and the bit length of the word make up 64 |
| `UintShift.ShlLimbs` | math/src/uint.rs:70-83 | what the two loops leave in every limb, including the limbs shifted out and the case of whole-word shifts |
| `UintShift.OverflowingShl` | math/src/uint.rs:66-84 | multiplication by a power of two modulo 2^(64n); the shift wraps at the width and the flag says so |
| `UintShift.ShrLimbs` | math/src/uint.rs:95-108 | what the two loops leave in every limb |
| `UintShift.OverflowingShr` | math/src/uint.rs:91-109 | integer division by a power of two; the shift wraps at the width and the flag says so |
| `UintShift.Shl` | math/src/uint.rs:662-672 | below the width the operator multiplies by 2^s modulo 2^(64n); beyond it the shift wraps as in a release build |
| `UintShift.Shr` | math/src/uint.rs:674-684 | below the width the operator divides by 2^s; beyond it the shift wraps as in a release build |
| `UintMul.CarryingMulU64` | math/src/uint.rs:180-190 | limbs and final carry together are the full product with a word |
| `UintMul.OverflowingMulU64` | math/src/uint.rs:173-178 | the product modulo 2^(64n), with the flag raised exactly when it does not fit |
| `UintMul.OverflowingMul` | math/src/uint.rs:192-209 | the product modulo 2^(64n); the true product fits if and only if the flag is down and no limb pair skipped by the loop has both limbs nonzero |
| `UintMul.Product` | math/src/uint.rs:197-207 | what the rows keep and what they skip add up to the whole product, after every row |
| `UintMul.SkippedZero` | math/src/uint.rs:200-205 | nothing is lost in the skipped part exactly when every skipped limb pair has a zero in it |
| `UintMul.FlagMeansOverflow` | math/src/uint.rs:206-208 | a raised flag always means real overflow |
| `UintMul.FlagMissesOverflow` | math/src/uint.rs:192-209 | 2^64 times 2^64 in two limbs overflows with the flag down |
| `UintMul.MulU64Agrees` | math/src/uint.rs:173-209 | the one-word multiplication and the general one on the widened word agree in limbs and flag |
| `UintDiv.DivRem` | math/src/uint.rs:308-343 | for every limb count and nonzero divisor, dividend = quotient * divisor + remainder with remainder below the divisor |
| `UintDiv.LongDivision` | math/src/uint.rs:326-342 | the bitwise loop alone divides, from any aligned starting shift |
| `UintDiv.SetQuotientBit` | math/src/uint.rs:331-332 | the in-place or sets exactly one bit of one limb |
| `UintDiv.DivisionUnique` | math/src/uint.rs:308-343 | quotient and remainder are determined by that equation |
| `UintDiv.DivRemU64` | math/src/uint.rs:261-270 | limb-by-limb division by a word satisfies the division equation |
| `UintDiv.DivRemU64Agrees` | math/src/uint.rs:261-343 | the one-word division and long division by the widened word give the same quotient and remainder |
| `UintDecimal.Display` | math/src/uint.rs:763-819 | the text is the decimal numeral of the integer, for every limb count |
| `UintDecimal.FinishDisplay` | math/src/uint.rs:792-817 | the tail for values below 10000 completes the digits already written, without leading zeros |
| `UintDecimal.WritePair` | math/src/uint.rs:785-790 | two digits from the table go in front of what the buffer holds |
| `UintDecimal.LutEntry` | math/src/uint.rs:767-771 | characters 2k and 2k + 1 of the 200-character table, written out as in the source, are the two digits of k |
| `UintDecimal.BufferSuffices` | math/src/uint.rs:773-773 | the numeral never needs more than 20 characters a limb |
| `UintDecimal.DecimalIsNumeral` | math/src/uint.rs:763-819 | the numeral has only digits, no leading zero except for zero itself, and reads back as the number |
| `UintDecimal.NumeralUnique` | math/src/uint.rs:763-819 | no other text with these properties reads back as the number |
| `UintFloat.AsF64` | math/src/uint.rs:272-306 | the bit pattern is the nearest double, ties to even, infinity from the rounding boundary on (sections 3.4 and 4.3.1 of IEEE 754-2019), if and only if the value is at most 2^1024 + 2^971; it is not a number if and only if the value is above that and below 2^1025 - 2^971, and has the sign bit set if and only if the value is at least that |
| `UintFloat.AlignLeft` | math/src/uint.rs:276-278 | the aligned limbs are the value times 2^leading_zeros, with nothing lost |
| `UintFloat.RoundMantissa` | math/src/uint.rs:279-297 | the bit tests round the aligned value to 53 bits, to nearest with ties to even |
| `UintFloat.NearestPattern` | math/src/uint.rs:298-305 | a pattern within half a unit, even on a tie, is nearest among all patterns, also when the mantissa carries into the exponent |
| `UintFloat.RoundingVerdict` | math/src/uint.rs:298-305 | the sum of the shifted exponent and the mantissa is the correctly rounded pattern exactly up to 2^1024 + 2^971, a not-a-number code from there to 2^1025 - 2^971, and a pattern with the sign bit above |
| `UintFloat.NextIsNaN` | math/src/uint.rs:298-305 | 2^r + 2^(r-52) becomes not a number exactly for r = 1024 |
| `UintFloat.NegativePowers` | math/src/uint.rs:298-305 | 2^k for 1025 <= k <= 3071 becomes the negative double with biased exponent k - 1025 |
| `UintFloat.NegativeZero` | math/src/uint.rs:298-305 | 2^1025 becomes negative zero |
| `UintFloat.RoundedUnique` | math/src/uint.rs:272-306 | at most one pattern is the correctly rounded one |
| `UintFloat.ExactBelow53Bits` | math/src/uint.rs:272-306 | every value below 2^53 is represented exactly |
| `CompactTarget.FromCompactTargetBits` | math/src/lib.rs:64-83 | for all 2^32 codes, with the top byte as size and the other three as mantissa: mantissa / 2^(8(3 - size)) up to size 3, mantissa * 2^(8(size - 3) mod 256) modulo 2^256 above, and zero when the mantissa used has bit 23 set |
| `CompactTarget.CompactTargetBits` | math/src/lib.rs:85-101 | the top byte of the code is the number of bytes the integer needs with its sign bit, the other three are its leading bytes; zero gives zero |
| `CompactTarget.DecodeMeaning` | math/src/lib.rs:64-83 | the decoding used below is that reading of a size and a mantissa |
| `CompactTarget.EncodeMeaning` | math/src/lib.rs:85-101 | the encoding used below has size s with 2^(8s-9) <= v < 2^(8s-1) and mantissa v * 2^24 / 2^(8s) |
| `CompactTarget.DecodeEncode` | math/src/lib.rs:64-101 | decoding a code gives the target with its low bytes cleared, and the code fits 32 bits |
| `CompactTarget.RoundsDown` | math/src/lib.rs:64-101 | encoding never increases a target and loses at most one part in 2^15 |
| `CompactTarget.GreatestLowerTarget` | math/src/lib.rs:64-101 | of all 2^32 codes the chosen one decodes to the largest target not above the given one |
| `CompactTarget.EncodeStable` | math/src/lib.rs:64-101 | encoding what was decoded gives the same code again |
| `CompactTarget.EncodeMonotone` | math/src/lib.rs:85-101 | larger targets get larger codes and larger decoded targets, across the change of size |
| `Checksum.Polymod` | wallet-gui/wallet_app/validators.py:23-32 | the nested loops compute the fold of the linear step |
| `Checksum.GeneratorConstants` | wallet-gui/wallet_app/validators.py:14-14 | the digit tables are the five 40-bit constants |
| `Checksum.StepXor` | wallet-gui/wallet_app/validators.py:26-31 | one step is linear over xor in state and symbol together |
| `Checksum.StepInjective` | wallet-gui/wallet_app/validators.py:26-31 | a step on a zero symbol never maps a nonzero state to zero |
| `Checksum.RunXor` | wallet-gui/wallet_app/validators.py:23-32 | the whole run is linear over xor, at every length |
| `Checksum.BurstDetected` | wallet-gui/wallet_app/validators.py:23-32 | two different words that differ only within eight consecutive symbols never end in the same state, at any length and from any state |
| `Checksum.UniqueChecksum` | wallet-gui/wallet_app/validators.py:23-47 | for every word exactly one eight-symbol suffix makes polymod zero, namely the digits of polymod over the word and eight zeros |
| `CodePolynomial.StepDivides` | wallet-gui/wallet_app/validators.py:26-31 | one step is one step of long division: the old state and the new symbol equal the shifted-out digit times the generator polynomial plus the new state |
| `CodePolynomial.RunIsRemainder` | wallet-gui/wallet_app/validators.py:23-32 | the final state is the remainder of the word's polynomial divided by the generator over GF(32), and no other eight digits are |
| `CodePolynomial.PolymodIsRemainder` | wallet-gui/wallet_app/validators.py:23-32 | polymod of n values v is the unique remainder of x^n + v(x) - 1 |
| `CodePolynomial.ValidIsMultiple` | wallet-gui/wallet_app/validators.py:35-47 | a word passes exactly when the generator divides its polynomial |
| `CodeDistance.NoZeroDivisors` | wallet-gui/wallet_app/validators.py:14-14 | the 32 symbols with this multiplication have no zero divisors |
| `CodeSquares.SquareIsTimes` | wallet-gui/wallet_app/validators.py:26-31 | the linear squaring map on symbols is multiplication of a symbol by itself |
| `CodeSquares.SqAdvance` | wallet-gui/wallet_app/validators.py:23-32 | squaring the state reached from 1 after n zero symbols gives the state after 2n |
| `CodeOrder.OrderOfX` | wallet-gui/wallet_app/validators.py:23-32 | after n zero symbols the state 1 has become a single symbol exactly when 1025 divides n, and then it is 1 again |
| `CodeOrder.TwoErrors` | wallet-gui/wallet_app/validators.py:23-32 | two words that differ in exactly two places end in the same state if and only if 1025 divides the distance of the places and both changes are the same |
| `Address.CharsetIndexOf` | wallet-gui/wallet_app/validators.py:9-11 | no character stands in the charset twice: looking up the i-th gives i |
| `Address.SymbolsDiffer` | wallet-gui/wallet_app/validators.py:9-11 | different charset characters decode to different symbols |
| `Address.OneChecksum` | wallet-gui/wallet_app/validators.py:35-47 | for every prefix and payload data exactly one eight-character tail passes verification |
| `Address.ValidatePayload` | wallet-gui/wallet_app/validators.py:82-95 | the verdict is valid exactly for a nonempty payload that passes the checksum, and the checksum error is reported exactly when the payload is otherwise sound |
| `Address.PrefixChecked` | wallet-gui/wallet_app/validators.py:63-80 | past length, separator and prefix the verdict is the payload's; before, it is neither valid nor a checksum error |
| `Address.ValidAddresses` | wallet-gui/wallet_app/validators.py:63-95 | exactly which strings are accepted for a network |
| `Address.BurstRejected` | wallet-gui/wallet_app/validators.py:35-95 | changing a valid address's payload within eight consecutive characters never gives a valid address, and with charset characters it is the checksum that rejects it |
| `Address.TwoErrorsExactly` | wallet-gui/wallet_app/validators.py:35-95 | changing two payload characters of a valid address gives a valid address if and only if they lie a multiple of 1025 apart and change their symbols alike; otherwise, with charset characters, it is the checksum that rejects it |
| `Address.TwoErrorsMissed` | wallet-gui/wallet_app/validators.py:35-95 | every valid address with 1026 payload characters or more has another valid one two characters away |
| `AddressFormat.OneSpelling` | wallet-gui/wallet_app/validators.py:42-46 | a prefix and a payload of charset characters spell exactly one word: the five low bits of each prefix byte, a zero, the charset position of each payload character; other payloads spell none |
| `AddressFormat.ChecksumWord` | wallet-gui/wallet_app/validators.py:35-47 | verification succeeds if and only if that word has polymod zero |
| `AddressFormat.PrefixBurst` | wallet-gui/wallet_app/validators.py:35-47 | two prefixes whose bytes differ modulo 32, all within eight places, never accept the same payload |
| `AddressFormat.EarlyVerdicts` | wallet-gui/wallet_app/validators.py:67-71 | too short exactly below 24 characters, no separator exactly from there on without a colon |
| `AddressFormat.LaterVerdicts` | wallet-gui/wallet_app/validators.py:73-95 | with the first colon in place, the wrong prefix and the expected one, or the verdict on the payload |
| `AddressFormat.PayloadVerdicts` | wallet-gui/wallet_app/validators.py:82-95 | empty, then the very set of characters outside the charset, then the checksum by the word spelt, then valid |
| `EntryCache.Cache.constructor` | database/src/cache.rs:142-146 | the policy's numbers are kept and the cache starts empty and within bounds |
| `EntryCache.Cache.TrackedEvict` | database/src/cache.rs:61-68 | the tracked size stays the exact sum of entry sizes; eviction ends within the limit or at min_items, takes nothing when nothing is over, keeps min_items, and its last victim still exceeded the limit |
| `EntryCache.Cache.InnerInsert` | database/src/cache.rs:70-84 | bounds and accounting hold afterwards; count mode gives up exactly one entry when full; tracked mode evicts no more than it must |
| `EntryCache.Cache.InnerUpdateIfEntryExists` | database/src/cache.rs:86-100 | an absent key changes nothing; a present one is updated, re-accounted and evicted for |
| `EntryCache.Cache.InnerRemove` | database/src/cache.rs:102-112 | exactly that entry goes, its value is returned, and the accounting subtraction never underflows |
| `EntryCache.Cache.Insert` | database/src/cache.rs:156-162 | as the inner insertion, and nothing at all for a cache without capacity |
| `EntryCache.Cache.InsertMany` | database/src/cache.rs:164-172 | later pairs win over earlier ones; every entry left is the latest for its key |
| `EntryCache.Cache.UpdateIfEntryExists` | database/src/cache.rs:174-182 | the update never brings in a key that was not cached |
| `EntryCache.Cache.Remove` | database/src/cache.rs:184-189 | exactly that entry is removed, under every policy |
| `EntryCache.Cache.RemoveMany` | database/src/cache.rs:191-199 | exactly the named entries are removed |
| `EntryCache.Cache.RemoveAll` | database/src/cache.rs:201-210 | empty, with the tracked size back at zero |
| `EntryCache.Run` | database/src/cache.rs:61-210 | over every run and every eviction choice the bounds and the accounting hold and each cached value is the one an unbounded map would hold |
| `EntryCache.TotalSizeRemove` | database/src/cache.rs:65-65 | the sum of sizes does not depend on the order entries are taken out |
| `Database.DbKey.New` | database/src/key.rs:12-17 | cutting the path at the recorded length gives back the prefix and the key |
| `Database.DbKey.NewWithBucket` | database/src/key.rs:19-49 | prefix, bucket and key are laid out in this order, and the recorded prefix length covers all three, since adding the key counts it too |
| `Database.Writer.Write` | database/src/writer.rs:36-93 | a direct writer changes the database at once, a batch writer only its batch; both come to the same database once all is written |
| `Database.Writer.Commit` | database/src/writer.rs:61-93 | writing the batch leaves the database the operations had described, and nothing pending |
| `Database.LastTouchDecides` | database/src/writer.rs:71-93 | what a batch leaves under a path is decided by its last operation that touches it |
| `Database.Plain.PresenceKept` | database/src/writer.rs:71-93 | a batch leaves a path present or absent as it was if and only if it does not touch it or its last operation on it puts a present path or deletes an absent one |
| `MapStore.MapStore.Has` | database/src/access.rs:44-49 | present in the cache or in the database; where cache and database agree, exactly present in the database |
| `MapStore.MapStore.Read` | database/src/access.rs:51-68 | a cached value, or the database's with its two kinds of failure; only a success enters the cache |
| `MapStore.MapStore.Write` | database/src/access.rs:89-98 | cache and committed database stay in agreement, for every eviction |
| `MapStore.MapStore.WriteMany` | database/src/access.rs:100-116 | the same for a whole sequence with repeated keys |
| `MapStore.MapStore.WriteManyWithoutCache` | database/src/access.rs:118-135 | clearing the cache restores agreement, whatever the cache held |
| `MapStore.MapStore.Remove` | database/src/access.rs:137-144 | the entry leaves cache and committed database together |
| `MapStore.MapStore.RemoveMany` | database/src/access.rs:146-156 | the same for a whole sequence of keys |
| `MapStore.MapStore.RemoveAll` | database/src/access.rs:158-168 | afterwards no key of the store is found in the committed database, nothing outside its prefix has changed, and the cache is empty |
| `MapStoreRuns.Run` | database/src/access.rs:44-168 | over every run and every eviction choice the database is that of the store without a cache; if every open batch is harmless to what the run reads meanwhile, every response is too, and cache and committed database agree at the end |
| `MapStoreRuns.DirectIsSafe` | database/src/writer.rs:36-57 | with a direct writer no run is excluded |
| `MapStoreRuns.HarmlessExactly` | database/src/access.rs:51-68 | an open batch leaves the answer to a read as it is if and only if it does not touch the key or its last operation on the key leaves what the database holds |
| `MapStoreRuns.ReadExactly` | database/src/access.rs:51-68 | a read answers as the store without a cache and keeps cache and committed database in agreement if and only if the open batch is harmless to it, or the key is neither cached nor found |
| `MapStoreRuns.StaleAfterCommit` | database/src/access.rs:51-68 | delete in a batch, read, commit: the store returns a value the database no longer has |
| `MapStoreRefinement.RunRefinesMap` | database/src/access.rs:44-168 | over every run, direct or batched, the store without a cache answers every request as a plain map would and ends up holding that map; a batch is visible once it is written |
| `MapStoreRefinement.Serve` | database/src/access.rs:44-168 | the cached store answers as that map, for every eviction choice, with a direct writer over every run and with a batch writer over every run whose open batches are harmless to what it reads meanwhile |
| `MapStoreRefinement.RunStaysInside` | database/src/access.rs:89-168 | over every run nothing stored outside the store's prefix changes |
| `SetStore.FixedLengthIsPrefixFree` | database/src/key.rs:19-49 | injective keys of one length never begin one another |
| `SetStore.WriteLeavesBucket` | database/src/set_access.rs:132-140 | writing an element leaves another bucket's entries alone in every database if and only if the other key's bytes are not the beginning of this key and element |
| `SetStore.ClearLeavesBucket` | database/src/set_access.rs:142-147 | deleting a bucket leaves another bucket's entries alone in every database if and only if neither key's bytes begin the other's |
| `SetStore.KeysInterfere` | database/src/key.rs:19-49 | with keys of one byte and of two, an element written under the short key appears in the long key's bucket, and deleting the short key's bucket empties both |
| `SetStore.InBucket` | database/src/set_access.rs:184-193 | an element is read back exactly when its entry is in the database |
| `SetStore.BucketAfterWrite` | database/src/set_access.rs:132-140 | a write adds one element to one bucket and changes no other |
| `SetStore.BucketAfterDelete` | database/src/set_access.rs:149-152 | a delete removes one element from one bucket and changes no other |
| `SetStore.BucketAfterClear` | database/src/set_access.rs:142-147 | a bucket delete empties one bucket and changes no other |
| `SetStore.CollectBucket` | database/src/set_access.rs:154-193 | the iteration yields the set of decoded elements of the bucket, or fails if any entry does not decode |
| `SetStore.SetStore.Read` | database/src/set_access.rs:65-79 | the cached set or the bucket; only a success enters the cache |
| `SetStore.SetStore.Write` | database/src/set_access.rs:81-87 | a cached set gains the element, an uncached one is not started, and cached sets keep equal to their buckets |
| `SetStore.SetStore.Remove` | database/src/set_access.rs:94-101 | the same for removing an element |
| `SetStore.SetStore.RemoveBucket` | database/src/set_access.rs:89-92 | the set leaves the cache with its bucket |
| `SetStoreRuns.Run` | database/src/set_access.rs:65-193 | over every run and every eviction choice the database is that of the store without a cache; if every open batch is harmless to the sets the run reads meanwhile, every read is too, and each cached set equals its bucket |
| `SetStoreRuns.DirectIsSafe` | database/src/writer.rs:36-57 | with a direct writer no run is excluded |
| `SetStoreRuns.UntouchedBucket` | database/src/set_access.rs:154-178 | a batch with no operation on the bucket's prefix, or on a prefix of it, leaves its entries as they are |
| `SetStoreRuns.HarmlessExactly` | database/src/set_access.rs:65-79 | an open batch leaves a stored set as it is if and only if it leaves every element's entry present or absent as it was |
| `SetStoreRuns.ReadExactly` | database/src/set_access.rs:65-79 | a read returns the stored set and keeps cache and committed database in agreement if and only if the open batch is harmless to that set |
| `SetStoreRuns.StaleAfterCommit` | database/src/set_access.rs:65-87 | write to an uncached set in a batch, read, commit: the set read from then on lacks an element the database has |
| `SetStoreRefinement.RunRefinesSets` | database/src/set_access.rs:65-193 | over every run, direct or batched, the store without a cache answers every read as a plain set per key would and ends up holding those sets |
| `SetStoreRefinement.Serve` | database/src/set_access.rs:65-193 | the cached store answers as those sets, under the same condition as the map store |
| `SetStoreRefinement.RunStaysInside` | database/src/set_access.rs:81-152 | over every run nothing stored outside the store's prefix changes |
| `SetItem.SetItem.constructor` | database/src/item.rs:85-109 | elements are kept under the item's own key, with nothing between |
| `SetItem.SetItem.Read` | database/src/item.rs:111-122 | the set in memory, or the bucket, which is then kept |
| `SetItem.SetItem.Update` | database/src/item.rs:131-153 | removals before additions, in memory and in the database alike; nothing outside the item's prefix changes; a failed load changes nothing |
| `SetItem.Run` | database/src/item.rs:111-153 | over every run with either writer, reading inside open batches included, every result is what the operations make of the first set, and the database holds it once all is written |
| `Broadcaster.Plan.Take` | notify/src/broadcaster.rs:48-66 | the search finds the one place of an id, takes it out, and remembers the place only when its set has become empty |
| `Broadcaster.Plan.Remove` | notify/src/broadcaster.rs:48-77 | the listener is gone, no empty inner map is left, and the others are where they were |
| `Broadcaster.Plan.Insert` | notify/src/broadcaster.rs:36-46 | the id is filed under its new subscription and encoding only, and the old connection is returned |
| `Broadcaster.Plan.Broadcast` | notify/src/broadcaster.rs:176-202 | exactly one send, with the message for its subscription and encoding, to every listener whose subscription applies and to no one else |
| `Broadcaster.Plan.Notify` | notify/src/broadcaster.rs:176-204 | and then exactly the listeners whose send failed on a closed connection are gone |
| `Broadcaster.RemovedFiles` | notify/src/broadcaster.rs:48-77 | taking out and pruning keeps every other listener filed under its own subscription and encoding |
| `Broadcaster.PutInFiles` | notify/src/broadcaster.rs:39-44 | filing a new listener keeps every other one filed |
| `Broadcaster.Run` | notify/src/broadcaster.rs:156-217 | over every sequence of registrations, removals and notifications the plan refines a map from id to listener, and each notification's sends are those that map prescribes, and nothing else is sent |
| `ExpiringCache.StepInv` | utils/src/expiring_cache.rs:36-74 | every atomic step of every caller keeps the invariant |
| `ExpiringCache.Safe` | utils/src/expiring_cache.rs:29-74 | over every interleaving and clock, cancellations included: at most one owner of the flag, and the final compare-exchange never fails; a call that read an entry younger than refetch returns that entry's item; it returns what it loaded only if that was younger than expire; it fetches only if it captured the refetch of a due entry or read nothing younger than expire; what it returns was fetched when its timestamp says |
| `ExpiringCache.StepHeld` | utils/src/expiring_cache.rs:51-71 | a step leaves the flag set without an owner exactly when it cancels the owner |
| `ExpiringCache.HeldExactly` | utils/src/expiring_cache.rs:36-74 | over every run a set flag has an owner if and only if no owner was ever cancelled |
| `ExpiringCache.StuckForGood` | utils/src/expiring_cache.rs:51-71 | a flag left without an owner is never captured or cleared again |
| `ExpiringCache.StuckAfterCancel` | utils/src/expiring_cache.rs:51-71 | under every configuration a first fetch followed by a cancelled refetch leaves the flag set with every caller idle |
| `ExpiringCalls.CallAlone` | utils/src/expiring_cache.rs:36-74 | a call that runs alone returns the stored item and changes nothing exactly if it is younger than refetch, or younger than expire with the flag set; otherwise it returns and stores the fetched item with its time and leaves the flag as it was |
| `ExpiringCalls.ReadingExplained` | utils/src/expiring_cache.rs:44-46 | over every run, what a call goes by is what the store held at its own load and what the clock said at its own check |
| `ExpiringCalls.FetchExplained` | utils/src/expiring_cache.rs:63-66 | over every run, what a call stores or returns as new is what its own fetch brought and when |
| `ExpiringCalls.StoreIsLatest` | utils/src/expiring_cache.rs:66-66 | over every run the store holds what the last call to store anything had fetched |
| `ExpiringCalls.CheckDecides` | utils/src/expiring_cache.rs:44-50 | a check returns exactly a fresh entry, fetches exactly without an entry or with one from the future, and changes nothing shared |
| `ExpiringCalls.CaptureDecides` | utils/src/expiring_cache.rs:51-56 | the refetch is captured exactly if the flag was clear; with the flag set an entry younger than expire is returned and any other fetched anew |
| `ExpiringCalls.NeverWaits` | utils/src/expiring_cache.rs:36-74 | each step of its own brings a call closer to returning, and no step of another call sets it back |
| `FdBudget.Conserved` | utils/src/fd_budget.rs:25-51 | over every interleaving and for all 32-bit requests the counter is the sum of the live guards, in 32-bit arithmetic |
| `FdBudget.StepInv` | utils/src/fd_budget.rs:38-51 | every step keeps guards and requests about to be granted within the limit, except exactly a load for a negative request or one whose 32-bit sum wraps |
| `FdBudget.Safe` | utils/src/fd_budget.rs:25-51 | over every interleaving, with requests from 0 to i32::MAX - limit, the guards together never exceed the limit and every refusal is justified |
| `FdBudget.WrapBreaksBudget` | utils/src/fd_budget.rs:42-46 | with 30 of 100 held, a request of 2^31 - 1 is granted and the counter turns negative |
| `FdBudget.NegativeBreaksBudget` | utils/src/fd_budget.rs:38-51 | with a limit of 100, granting -50 and then 150 and dropping the first guard leaves a counter of 150 |
| `FdBudget.BudgetExact` | utils/src/fd_budget.rs:38-51 | from a state within budget, some continuation without further such requests ends with more than the limit held if and only if the step admits a negative request or one whose 32-bit sum wraps |
| `FdRequests.AcquireAlone` | utils/src/fd_budget.rs:38-51 | a request that runs alone is refused with nothing taken exactly if the 32-bit sum exceeds the limit, and otherwise granted a guard of its value |
| `FdRequests.DropUndoes` | utils/src/fd_budget.rs:25-51 | dropping the guard restores counter and guards, wrap-around or not |
| `FdRequests.RequestAnswered` | utils/src/fd_budget.rs:38-51 | over every run a request stays pending, retries included, until one step grants it a guard of its value or refuses it |
| `FdRequests.RetryHasCause` | utils/src/fd_budget.rs:46-49 | a compare-exchange retries exactly if the counter has changed since the load |
| `Simulation.Earliest` | utils/src/sim.rs:36-41 | no queued event comes before the one chosen, by time and then by destination |
| `SimulationLog.CopiesOneEach` | utils/src/sim.rs:94-98 | iterating over a set in any order gives each member exactly one copy |
| `SimulationLog.OwedExactly` | utils/src/sim.rs:86-98 | what a resumption brings about later is exactly what its calls and its suspension say: a message to its receiver after its delay, a wake-up to whom a timeout is set for, a broadcast to every process after the broadcast delay, a wake-up to a process that suspends with a timeout |
| `SimulationLog.LawMeans` | utils/src/sim.rs:86-140 | under the law the simulator keeps, every resumption but the initial ones was asked for by an earlier one, at that time, for that process and with that message or none; and all that was asked for is pending or has come about since |
| `SimulationLog.OneForOne` | utils/src/sim.rs:100-140 | the resumptions are one for one what was asked for under the serial numbers delivered |
| `SimulationLog.InOrderPair` | utils/src/sim.rs:100-104 | deliveries are of different events, at times that never decrease |
| `Simulation.Simulation.Push` | utils/src/sim.rs:86-92 | one event is scheduled, for now plus the delay, owing its destination the message, or a wake-up if there is none; nothing pending is in the past |
| `Simulation.Simulation.Broadcast` | utils/src/sim.rs:94-98 | exactly one copy for every process ever registered, the sender included, due after the broadcast delay |
| `Simulation.Simulation.NextEvent` | utils/src/sim.rs:100-104 | an event that is earliest by time and then by destination moves from pending to delivered, and the clock moves to it and never back |
| `Simulation.Simulation.Register` | utils/src/sim.rs:123-126 | whatever order the hash set takes, the broadcast list names every process ever registered exactly once |
| `Simulation.Simulation.Step` | utils/src/sim.rs:128-140 | exactly one event, an earliest one, is delivered: its process is resumed at its time with its message, or as scheduled without one, the law is kept, and a halt is reported; an empty queue or an unknown destination panics |
| `Simulation.Simulation.Start` | utils/src/sim.rs:143-149 | in some order every process is resumed once as initial and none halts, or only the last one resumed halts and that is an error; the law is kept, and nothing is delivered |
| `Simulation.Simulation.Run` | utils/src/sim.rs:142-157 | for arbitrary processes: time never decreases; a process is resumed only with what an earlier resumption asked for and when it asked for it; all that was asked for is pending or has come about; at most the last event delivered is later than until; only the last resumption halts, exactly in a run that a halt ended |
| `Chunking.NextUpperBound` | mining/src/manager.rs:519-535 | the chunk is a single transaction or below the mass limit, and no longer chunk from there is |
| `Chunking.ValidateInChunks` | mining/src/manager.rs:468-479 | every transaction gets its own result, in order, from nonempty chunks within the limit, and no other such partition has fewer chunks |
| `Chunking.GreedyAhead` | mining/src/manager.rs:468-479 | after equally many chunks the greedy partition is never behind another |
| `Chunking.GreedyOptimal` | mining/src/manager.rs:468-479 | a partition of longest chunks has the fewest chunks |

## Left out

- Limbs: `u32` arithmetic on bit counts is unbounded here, which matters only beyond 2^26 limbs.
- `mod_inverse`, hex, byte and JavaScript conversions, binary and hexadecimal formatting and `pad_integral` of `math/src/uint.rs`: they delegate to libraries or move bytes.
- `math/src/int.rs`: sign cases over the unsigned type.
- CompactTarget.FromCompactTargetBits: models a build without overflow checks, where a shift of 256 or more wraps; a checked build panics there instead.
- The debug assertions of the subtraction and shift operators: the models follow a release build, where they are absent.
- UintFloat.AsF64: the "only if" half is stated up to 48 limbs, the widest type the repository defines; in wider ones the exponent itself would wrap around 64 bits.
- Address: a prefix character stands for its byte, which is so for the two prefixes in use; `strip()` and `lower()` are taken as already applied to the input string, and the wording of messages is a datatype; amount and fee parsing is library float parsing.
- EntryCache: `usize` overflow of the tracked size, lock-level races inside one operation, and sizes that change while an entry is cached.
- Database: RocksDB is a byte map without I/O errors, bincode a total encoder with a decoder that inverts it, and a range delete removes exactly the keys with the prefix; a prefix of 0xFF bytes only, on which the range bounds panic, is not modelled.
- MapStore: a serialisation failure halfway through a sequence of writes, and the iterators.
- MapStoreRuns.Run: for runs with a read that its open batch is not harmless to, only the database is stated; those reads are characterised one by one (`MapStoreRuns.ReadExactly`), since a later eviction can undo the harm.
- SetStoreRuns.Run: likewise (`SetStoreRuns.ReadExactly`).
- SetStoreRuns.ReadExactly: for databases whose entries all decode, as everything the store itself writes does.
- SetStore and SetItem: the read-lock handle to a cached set is a value, so later changes seen through an old handle are not modelled; `CachedDbItem`, the one-value store of `database/src/item.rs`, would repeat the map store with one key.
- Broadcaster: one event type's plan; the array over event types, channels, task start-up and shutdown, and what a subscription is inside (an abstract key with an abstract `apply`).
- ExpiringCache: cancellation only at the await, the one place where the future can be dropped; every atomic access is sequentially consistent, as in the source.
- FdBudget: a fixed limit, wrapping arithmetic as in a release build, and not `remainder`, which only reads.
- Simulation.Simulation.Run: stops after a given number of steps, so that it terminates; every finite prefix of every run is covered. Time is unbounded instead of `u64`.
- Chunking.NextUpperBound: `u64` overflow of the running mass.
- The mempool, block templates, consensus, networking, subscriptions' internals, command line and graphical interfaces.
