# Proofs about BreakingPointExt

A Dafny 4.11 project that models four parts of the repository and proves what they are for. `dafny verify
dfyconfig.toml` checks everything.

**CRC** (`Words`, `CrcSpec`, `CrcDetection`, `CrcEngine`, `CrcCheckValues`). `CrcSpec` defines the shift register one bit at a time and
proves that it is polynomial division over GF(2): the register is the one remainder there is. `CrcDetection` proves what
that is good for: every burst no wider than the register changes the checksum, exactly when the polynomial has a constant
term. `CrcEngine` holds `crc_basic`, `crc_table_t`, `crc_optimal`, `crc` and `augmented_crc` as classes and methods that
update words in place. Widths are arbitrary: a register of n bits lives in a word of w bits, and what the code leaves
above the register stays there. The table form refines the bit form because n steps split into a shift and a table entry
(`FeedSplit`). What the checksum is in the end is stated on the remainder bit by bit (`ChecksumBits`), and `CrcCheckValues`
evaluates it on machine words: the check value of `crc_32_type` is 0xCBF43926.

**Rational numbers** (`Integers`, `Fractions`, `Rationals`). The class `Rational` has the fields `num` and `den`, and
its methods assign them as the operators do, with C++'s truncating `/` and `%`. Each is proved to compute the exact
number in lowest terms; `operator<` is proved to decide the order by two continued fractions. `integer::gcd` is the
mathematical gcd. The component type is unbounded, except that `normalize` knows a least value that is its own negation.

**SQF values and parameters** (`SqfText`, `SqfNumbers`, `SqfLiterals`, `SqfDoubles`, `SqfDigits`, `Sqf`, `SqfAccessors`,
`SqfRoundTrip`, `SqfParameters`, `SqfLocality`, `SqfConsumption`, `SqfSamples`, `SqfSampleLists`, `SqfCounterexamples`). The grammar is a set of recursive functions with the same
alternatives in the same order as in `Sqf.cpp`, with the skipping, the backtracking and the numeric parsers of the Spirit
headers in the tree: the overflow checks, the strict real's rules for points and exponents, `nan`, `inf`, and its failing
scale that does not go back. The generators print doubles in fixed or scientific notation, three digits after the point.
Doubles are mathematical reals. The texts themselves are pinned without the functions that write and read them: the digits
of a number (`SqfDigits`), the strings the accessors accept (`SqfAccessors`), quotes and words (`QuotedOnly`, `WordsOnly`),
and the samples of the source's own check, values and parameter lists, each read and written back as the same text
(`SqfSamples`, `SqfSampleLists`). Some promises one might expect are false. Each comes with an input and with the exact
condition under which it holds:

- a literal that fits 32 bits is not always the 32-bit variant, because the lookahead `!digit` skips spaces
  (`SpacedDigitWidens`, `IntegerLiteral`);
- a decimal literal is not always read as the number written: a digit that does not fit the 64-bit mantissa can be refused
  too late, and digits behind the 614th are scaled wrongly (`RefusedDigit`, `DeepDigit`, `DecimalLiteral`);
- reading what was printed does not always give the value back: exactly when every string can stand between double
  quotes and the value is in normal form (`QuoteInside`, `ValueRoundTrip`);
- printing after reading does not always keep the text: it changes exactly when a double is rounded up to the next power
  of ten, and settles then (`CarriedText`, `PrintAfterParse`);
- a parameter list of strings that would each survive need not survive: `"a` and `b"` are read as one string
  (`FieldsReadTogether`). `ParametersRoundTrip` gives the condition, which looks at the fields behind; without quotes and
  parentheses it need not (`ListsWithoutQuotes`).

**Ticket worker** (`TicketProtocol`, `WorkerLiveness`, `AsyncWorker`). `TicketProtocol` is a transition system for the worker thread and
one client thread, one access to shared memory per step, with every interleaving allowed. Storing a finished ticket is
two steps, the flag first: a client can see it ready before its text is there, and only the mutex in `ticketResult` saves
it. The invariants are proved for every reachable state. Beyond safety: left alone, the worker drains, and the
number of steps is exact. `stop()` before `run()` has set its flag is lost, and that is the only time (`StopSticks`);
otherwise at most one more call is made in any interleaving (`StopEndsCalls`), and the thread has left its loop within
eleven of its own steps (`StopThenFinished`). The
class `AsyncWorker` keeps the run flag, the two queues, the mutex, the ticket map, the two counters and the worker
thread's place as fields that its methods update. A client call may begin wherever the worker is; where it needs the
mutex it lets the worker move on until the mutex is free. Each method is proved to do what the transition system does
along that schedule. `callExtension` is an arbitrary function from text to text.

## Model

| member | source | states |
|---|---|---|
| CrcSpec.Crc32 | BreakingPointExt/boost/include/boost/crc.hpp:97-98 | the parameters of crc_32_type, those of the CRC-32 in section 8 of RFC 1952, are well formed and 32 bits wide |
| CrcSpec.FeedIsRemainder | BreakingPointExt/boost/include/boost/crc.hpp:728-751 | for every polynomial, start and message the shift register holds the remainder of the division over GF(2) of the message times x^n (the start added on top), and no other word is such a remainder |
| CrcSpec.DividesUnique | BreakingPointExt/boost/include/boost/crc.hpp:728-751 | the remainder of a division by the monic divisor is unique, whatever quotients are used |
| CrcSpec.FeedBytesConcat | BreakingPointExt/boost/include/boost/crc.hpp:782-798 | the register after a + b is the register after a, fed b |
| CrcSpec.FeedLinear | BreakingPointExt/boost/include/boost/crc.hpp:728-751 | the register is linear over XOR in start and message together |
| CrcSpec.FeedSplit | BreakingPointExt/boost/include/boost/crc.hpp:955-965 | k register steps at once: shift by k, and add the remainder of (message bits XOR the top k register bits); for every k, below and above the width |
| CrcSpec.ChecksumAffine | BreakingPointExt/boost/include/boost/crc.hpp:955-965 | for three equal-length messages and any parameters, the XOR of the three checksums is the checksum of the XOR of the messages, reflection and final XOR included |
| CrcSpec.AugFeedSplit | BreakingPointExt/boost/include/boost/crc.hpp:1062-1073 | the augmented register taken k bits at a time: top bits index a remainder, message bits fill the bottom |
| CrcSpec.LiftAugFeed | BreakingPointExt/boost/include/boost/crc.hpp:1047-1076 | the augmented register times x^n is the plain register, at every point of every message |
| CrcSpec.AugmentedIsPlain | BreakingPointExt/boost/include/boost/crc.hpp:1047-1076 | message followed by n zero bits: the augmented register ends in the plain register of the message; from a zero start, in its plain CRC |
| CrcSpec.AugmentedAcceptsOnlyCrc | BreakingPointExt/boost/include/boost/crc.hpp:1047-1076 | message followed by n bits divides out to zero if and only if those bits are the CRC, most significant first |
| CrcSpec.MessageBitsAre | BreakingPointExt/boost/include/boost/crc.hpp:775-782 | the bits of a message in the order they meet the register: byte after byte, lowest bit first exactly when the input is reflected |
| CrcSpec.ChecksumBits | BreakingPointExt/boost/include/boost/crc.hpp:817-823 | every bit of the checksum, for every parameter set: the bit of the remainder of the division, counted from the other end exactly when the output is reflected, XOR the bit of the final value |
| CrcCheckValues.DivideIsStep | BreakingPointExt/boost/include/boost/crc.hpp:728-751 | on 32-bit machine words, one division step is shift left and conditional XOR with 0x04C11DB7 |
| CrcCheckValues.Crc32Check | BreakingPointExt/boost/include/boost/crc.hpp:97-98 | the check value of crc_32_type: the characters 1 to 9 give 0xCBF43926 |
| CrcCheckValues.UnreflectedCheck | BreakingPointExt/boost/include/boost/crc.hpp:817-823 | with both reflections off the same parameters give 0xFC891918 |
| CrcCheckValues.ZeroByteCheck | BreakingPointExt/Rcon.cpp:100-102 | a packet of one zero byte has the checksum 0xD202EF8D |
| CrcEngine.Reflect | BreakingPointExt/boost/include/boost/crc.hpp:309-326 | the loop returns the low n bits in opposite order, zero above, stated bit by bit too |
| CrcEngine.ReflectLowInvolution | BreakingPointExt/boost/include/boost/crc.hpp:309-326 | reflecting twice keeps exactly the low n bits |
| CrcEngine.WordStep | BreakingPointExt/boost/include/boost/crc.hpp:728-751 | one step on a whole word, with anything above the register, is one register step on its low n bits |
| CrcEngine.CrcBasic.GetInterimRemainder | BreakingPointExt/boost/include/boost/crc.hpp:699-704 | returns the register and nothing of what lies above it |
| CrcEngine.CrcBasic.Reset | BreakingPointExt/boost/include/boost/crc.hpp:709-716 | the register becomes the low bits of the argument |
| CrcEngine.CrcBasic.ProcessBit | BreakingPointExt/boost/include/boost/crc.hpp:728-751 | the new register is one division step of the old one |
| CrcEngine.CrcBasic.ProcessBits | BreakingPointExt/boost/include/boost/crc.hpp:755-770 | the new register is the old one fed the low bits of the byte, highest first |
| CrcEngine.CrcBasic.ProcessByte | BreakingPointExt/boost/include/boost/crc.hpp:775-782 | the new register is the old one fed the byte, in the order the input reflection asks for |
| CrcEngine.CrcBasic.ProcessBlock | BreakingPointExt/boost/include/boost/crc.hpp:786-797 | the new register is the old one fed the whole block |
| CrcEngine.CrcBasic.Checksum | BreakingPointExt/boost/include/boost/crc.hpp:817-823 | the finished register, masked to n bits; each bit is the register's, counted from the other end exactly when the output is reflected, XOR the final value's |
| CrcEngine.SlotInvolution | BreakingPointExt/boost/include/boost/crc.hpp:499-534 | bit reflection permutes the 256 table slots |
| CrcEngine.DivideByte | BreakingPointExt/boost/include/boost/crc.hpp:507-530 | the inner table loop computes eight register steps on the lone byte from zero |
| CrcEngine.CrcTable.FillSlot | BreakingPointExt/boost/include/boost/crc.hpp:503-534 | one pass of the outer loop puts the right entry in the right slot and destroys none filled before |
| CrcEngine.CrcTable.InitTable | BreakingPointExt/boost/include/boost/crc.hpp:491-536 | after the call every dividend has its entry, reflected where the table is; a second call changes nothing that matters |
| CrcEngine.CrcTable.Lookup | BreakingPointExt/boost/include/boost/crc.hpp:491-536 | each entry equals eight register steps on its index byte |
| CrcEngine.IndexIsTop | BreakingPointExt/boost/include/boost/crc.hpp:564-621 | the helper index is the next eight message bits XOR the top register bits, for widths below a byte too and in both reflections |
| CrcEngine.TableStep | BreakingPointExt/boost/include/boost/crc.hpp:955-964 | shift, look up, XOR is eight register steps, reflected or not |
| CrcEngine.CrcOptimal.constructor | BreakingPointExt/boost/include/boost/crc.hpp:836-843 | the register starts at the initial remainder and the shared table is ready |
| CrcEngine.CrcOptimal.GetInterimRemainder | BreakingPointExt/boost/include/boost/crc.hpp:910-917 | returns the register unreflected, whatever the internal form |
| CrcEngine.CrcOptimal.Reset | BreakingPointExt/boost/include/boost/crc.hpp:922-929 | the register becomes the low bits of the argument, so it undoes get_interim_remainder |
| CrcEngine.CrcOptimal.ProcessBlock | BreakingPointExt/boost/include/boost/crc.hpp:948-966 | the table loop leaves the register that the bit-by-bit computer would have |
| CrcEngine.CrcOptimal.Checksum | BreakingPointExt/boost/include/boost/crc.hpp:989-995 | the same, although the register is held reflected or not by the input flag: each bit in all four combinations of the flags |
| CrcEngine.Crc | BreakingPointExt/boost/include/boost/crc.hpp:1030-1040 | the crc function returns the specified checksum of the block |
| CrcEngine.SlowAndFastAgree | BreakingPointExt/boost/include/boost/crc.hpp:782-966 | crc_basic and crc_optimal return the same checksum for every byte string, width, flag setting and pair of word sizes |
| CrcEngine.PacketChecksum | BreakingPointExt/Rcon.cpp:100-102 | the checksum of a packet is that of the packet alone, whatever the shared computer processed before |
| CrcDetection.NoticesBurstsExactly | BreakingPointExt/boost/include/boost/crc.hpp:728-751 | every change inside a window of the register's width reaches the register, from every start, if and only if the polynomial has a constant term |
| CrcDetection.BurstChangesChecksum | BreakingPointExt/boost/include/boost/crc.hpp:782-823 | two different messages of one length that differ only inside such a window have different checksums, with any start, final XOR and flags |
| CrcDetection.Crc32NoticesBursts | BreakingPointExt/boost/include/boost/crc.hpp:97-98 | crc_32_type notices every burst of up to 32 bits |
| CrcEngine.InterruptAndResume | BreakingPointExt/boost/include/boost/crc.hpp:910-929 | processing a, moving the interim remainder to another computer and processing b there gives the checksum of a + b |
| CrcEngine.AugmentedCrc | BreakingPointExt/boost/include/boost/crc.hpp:1047-1076 | the table form computes the augmented register of the message |
| CrcEngine.AugmentedZeroBytes | BreakingPointExt/boost/include/boost/crc.hpp:1047-1076 | byte-multiple width: the message followed by zero bytes gives the plain CRC from a zero start |
| CrcEngine.AugmentedCheckBytes | BreakingPointExt/boost/include/boost/crc.hpp:1047-1076 | byte-multiple width: the message followed by k bytes gives zero if and only if they are its CRC, most significant byte first |
| Integers.GcdIsGreatest | BreakingPointExt/boost/include/boost/rational.hpp:834-836 | the gcd that the operators divide by is the one non-negative common divisor that every common divisor divides |
| Integers.LowestUnique | BreakingPointExt/boost/include/boost/rational.hpp:396-398 | two fractions in lowest terms with positive denominators and equal cross products have equal fields |
| Fractions.SumReduced | BreakingPointExt/boost/include/boost/rational.hpp:490-522 | the argument of the header comment: dividing a d1 + c b1 by its gcd with g alone leaves lowest terms and the exact value |
| Fractions.ProductReduced | BreakingPointExt/boost/include/boost/rational.hpp:544-556 | cross-reduced factors give an exact product in lowest terms |
| Fractions.QuotientDecides | BreakingPointExt/boost/include/boost/rational.hpp:772-781 | different integer parts decide the order of two fractions |
| Rationals.FieldsDecideValue | BreakingPointExt/boost/include/boost/rational.hpp:824-836 | in lowest terms, equal values if and only if equal fields |
| Rationals.InnerGcdIsGcd | BreakingPointExt/boost/include/boost/rational.hpp:388-390 | the recursion with truncating remainders on signed numbers is the gcd up to sign |
| Rationals.IsNormalizedMeansLowest | BreakingPointExt/boost/include/boost/rational.hpp:403-409 | is_normalized accepts exactly lowest terms with a positive denominator |
| Rationals.Rational.Whole | BreakingPointExt/boost/include/boost/rational.hpp:154-158 | construction from an integer |
| Rationals.Rational.New | BreakingPointExt/boost/include/boost/rational.hpp:159-164 | the two-argument constructor throws exactly for a zero denominator and for one that reduction and negation leave negative; otherwise lowest terms, with the value kept exactly when the numerator can be negated |
| Rationals.Rational.Normalize | BreakingPointExt/boost/include/boost/rational.hpp:840-873 | both exceptions, exactly; otherwise lowest terms with a positive denominator, and the value kept if and only if no least value had to be negated |
| Rationals.SingularExactly | BreakingPointExt/boost/include/boost/rational.hpp:858-872 | when normalize fails on the least value, in terms of the reduced fraction p / q: the denominator negative and q, respectively p, the least value |
| Rationals.Rational.PlusAssign | BreakingPointExt/boost/include/boost/rational.hpp:490-522 | the exact sum in lowest terms, also when a fraction is added to itself |
| Rationals.Rational.MinusAssign | BreakingPointExt/boost/include/boost/rational.hpp:525-541 | the exact difference in lowest terms, also of a fraction and itself |
| Rationals.Rational.TimesAssign | BreakingPointExt/boost/include/boost/rational.hpp:544-556 | the exact product in lowest terms; nothing computed on the way exceeds an operand or the result in magnitude |
| Rationals.Rational.DivideAssign | BreakingPointExt/boost/include/boost/rational.hpp:559-585 | throws exactly on a zero divisor and then changes nothing; otherwise the exact quotient in lowest terms, same bound on intermediates |
| Rationals.Rational.Negate | BreakingPointExt/boost/include/boost/rational.hpp:483-486 | the negated value, same denominator |
| Rationals.Rational.Increment | BreakingPointExt/boost/include/boost/rational.hpp:310-310 | adds one, lowest terms without a gcd |
| Rationals.Rational.Decrement | BreakingPointExt/boost/include/boost/rational.hpp:311-311 | subtracts one, lowest terms without a gcd |
| Rationals.Rational.PlusAssignWhole | BreakingPointExt/boost/include/boost/rational.hpp:266-271 | exact sum with an integer, lowest terms without a gcd |
| Rationals.Rational.MinusAssignWhole | BreakingPointExt/boost/include/boost/rational.hpp:272-277 | exact difference with an integer, lowest terms without a gcd |
| Rationals.Rational.TimesAssignWhole | BreakingPointExt/boost/include/boost/rational.hpp:278-286 | exact product with an integer in lowest terms |
| Rationals.Rational.DivideAssignWhole | BreakingPointExt/boost/include/boost/rational.hpp:287-307 | throws exactly on zero; otherwise the exact quotient in lowest terms with a positive denominator |
| Rationals.Rational.Equals | BreakingPointExt/boost/include/boost/rational.hpp:824-829 | comparing the fields decides equality of the numbers |
| Rationals.Rational.EqualsWhole | BreakingPointExt/boost/include/boost/rational.hpp:375-378 | comparing the fields with i and 1 decides equality with the integer |
| Rationals.Rational.LessThan | BreakingPointExt/boost/include/boost/rational.hpp:740-821 | terminates, returns true exactly when the value is less, and computes nothing wider than the widest operand field |
| Rationals.Rational.LessThanWhole | BreakingPointExt/boost/include/boost/rational.hpp:353-368 | the floor decides the order against an integer |
| Rationals.Rational.GreaterThanWhole | BreakingPointExt/boost/include/boost/rational.hpp:370-373 | not equal and not less is greater |
| Rationals.Rational.Apply | BreakingPointExt/boost/include/boost/rational.hpp:266-311 | one operation of any kind means what it means on real numbers, exceptions included |
| Rationals.Rational.Run | BreakingPointExt/boost/include/boost/rational.hpp:490-585 | any sequence of constructions and operations up to the first exception keeps lowest terms and computes what the sequence means on real numbers |
| Rationals.HistoryExamples | BreakingPointExt/boost/include/boost/rational.hpp:266-311 | two concrete histories with their results, one ended by a division by zero |
| Rationals.Rational.PlusThenMinus | BreakingPointExt/boost/include/boost/rational.hpp:490-541 | (a + b) - b restores the fields of a |
| Rationals.Reciprocate | BreakingPointExt/boost/include/boost/rational.hpp:775-796 | a round with equal integer parts reverses the comparison and moves it to the remainders |
| Rationals.ExpansionEnds | BreakingPointExt/boost/include/boost/rational.hpp:798-820 | when an expansion ends, which remainder is zero and the orientation decide |
| SqfNumbers.ExtractIsNumber | BreakingPointExt/boost/include/boost/spirit/home/qi/numeric/detail/numeric_utils.hpp:132-193 | the checked accumulators refuse exactly the digit strings whose number leaves the range, negative limit included, and otherwise return the number |
| SqfNumbers.SignedLiteral | BreakingPointExt/boost/include/boost/spirit/home/qi/numeric/detail/numeric_utils.hpp:413-510 | int_ and long_long read sign and digits as the number they denote or fail exactly out of range |
| SqfLiterals.IntegerIsNotDouble | BreakingPointExt/boost/include/boost/spirit/home/qi/numeric/detail/real_impl.hpp:246-268 | a literal without point and exponent is no strict real and consumes nothing, even when too long for the mantissa |
| SqfLiterals.FractionPrefix | BreakingPointExt/boost/include/boost/spirit/home/qi/numeric/detail/numeric_utils.hpp:280-293 | the digits after the point go into the mantissa up to the longest prefix that fits; it then holds that prefix, or ten times it when the next digit was refused too late |
| SqfLiterals.DecimalReadExact | BreakingPointExt/boost/include/boost/spirit/home/qi/numeric/detail/real_impl.hpp:291-295 | the value read for digits around a point is the value written if and only if the digits the mantissa refuses are zeros and those it takes are at most 614 or stand for zero |
| SqfLiterals.DecimalLiteral | BreakingPointExt/boost/include/boost/spirit/home/qi/numeric/detail/real_impl.hpp:185-323 | every literal with a point, leading and trailing points included: refused with nothing consumed exactly when the whole part does not fit 64 bits; otherwise a number, all of it consumed, exact under the same condition |
| SqfLiterals.ExponentLiteral | BreakingPointExt/boost/include/boost/spirit/home/qi/numeric/detail/real_impl.hpp:270-290 | every literal with an exponent, with or without a point: what is consumed, when there is no number, and that the value is exact if and only if the digits the mantissa refuses are zeros |
| SqfCounterexamples.RefusedDigit | BreakingPointExt/boost/include/boost/spirit/home/qi/numeric/detail/numeric_utils.hpp:148-156 | 1844674407370955161.6 is read ten times too large |
| SqfCounterexamples.DeepDigit | BreakingPointExt/boost/include/boost/spirit/home/qi/numeric/detail/real_impl.hpp:77-103 | a one in the 615th place after the point is read as 10^-307 |
| SqfNumbers.FailsBehindNumber | BreakingPointExt/boost/include/boost/spirit/home/qi/numeric/detail/real_impl.hpp:270-290 | a strict real that fails leaves the parser where it was or, after a failing scale, behind characters of a number only |
| SqfDoubles.PrintRealForm | BreakingPointExt/boost/include/boost/spirit/home/karma/numeric/detail/real_utils.hpp:69-166 | the text is made of the mantissa rounded half up to thousandths, signed exactly when the number is negative, zero never; which digits these are is stated by FixedText and ScientificText |
| SqfDigits.DigitsUnique | BreakingPointExt/boost/include/boost/spirit/home/karma/numeric/detail/real_utils.hpp:69-166 | the digits of a number are the one digit string with that value and no zero in front of others |
| SqfDigits.ShortestFraction | BreakingPointExt/boost/include/boost/spirit/home/karma/numeric/detail/real_utils.hpp:125-150 | the digits after the point do not end in zero and no shorter digit string says the same thousandths |
| SqfDigits.FractionUnique | BreakingPointExt/boost/include/boost/spirit/home/karma/numeric/detail/real_utils.hpp:125-150 | they are the only digit string that says the thousandths and ends in no zero, or is just 0 |
| SqfDigits.FixedText | BreakingPointExt/boost/include/boost/spirit/home/karma/numeric/detail/real_utils.hpp:69-166 | the text of zero and of every magnitude from 0.001 up to 100000, from any strings that have the required value and no superfluous zeros |
| SqfDigits.ScientificText | BreakingPointExt/boost/include/boost/spirit/home/karma/numeric/detail/real_utils.hpp:69-166 | the text of every other magnitude: mantissa, e, minus sign only below, exponent in at least two digits and no zero in front of more |
| SqfDoubles.DoubleReadsBack | BreakingPointExt/boost/include/boost/spirit/home/karma/numeric/detail/real_utils.hpp:69-166 | reading a printed double, in either notation, gives it rounded and leaves exactly the rest |
| SqfDoubles.RoundedPrints | BreakingPointExt/boost/include/boost/spirit/home/karma/numeric/detail/real_utils.hpp:112-166 | rounding is idempotent; the rounded double prints the same text if and only if rounding did not carry to the next power of ten, and the carry never happens twice |
| SqfCounterexamples.CarriedText | BreakingPointExt/boost/include/boost/spirit/home/karma/numeric/detail/real_utils.hpp:117-123 | 99999.9996 prints as 100000.0, which reads back and prints as 1.0e05 |
| SqfRoundTrip.IntegerLiteral | BreakingPointExt/Sqf.cpp:41-43 | every decimal literal: refused exactly outside 64 bits, otherwise its number, and the 32-bit variant exactly when it fits and no digit follows behind spaces |
| SqfRoundTrip.SpacedDigitWidens | BreakingPointExt/Sqf.cpp:42-42 | fitting 32 bits alone does not give the 32-bit variant: a concrete input |
| SqfRoundTrip.BigIntIsExact | BreakingPointExt/Sqf.cpp:232-260 | GetBigInt of a parsed literal, of the literal quoted and of its whole double are all the number written, and fail together out of range; BigIntOfText and IntegersOfOthers say when it succeeds at all |
| SqfRoundTrip.IntAnyByVariant | BreakingPointExt/Sqf.cpp:212-230 | GetIntAny reads quoted literals by value and bare ones by variant; IntAnyOfText says which strings it accepts |
| SqfAccessors.WholeLiteral | BreakingPointExt/Sqf.cpp:212-260 | a whole text is one literal exactly when it is an optional sign and at least one digit, and fits |
| SqfAccessors.BigIntOfText | BreakingPointExt/Sqf.cpp:246-258 | for every string: GetBigInt gives n if and only if the string writes n and n fits 64 bits; otherwise bad_get |
| SqfAccessors.IntAnyOfText | BreakingPointExt/Sqf.cpp:217-229 | for every string: GetIntAny gives n if and only if the string writes n and n fits 32 bits; otherwise bad_get |
| SqfAccessors.IntegersOfOthers | BreakingPointExt/Sqf.cpp:212-260 | for every other value: GetBigInt gives n exactly for both integer variants and for a double that is whole and fits; GetIntAny exactly for its own variant; bad_get for the rest |
| SqfAccessors.RefusedTexts | BreakingPointExt/Sqf.cpp:246-258 | text behind the digits, spaces around them, a sign alone, a point and the empty string are bad_get |
| SqfRoundTrip.QuotedReads | BreakingPointExt/Sqf.cpp:38-38 | either quote delimits a string of seven-bit characters, which may hold spaces and the other quote, and the rest is left |
| SqfRoundTrip.QuotedExactly | BreakingPointExt/Sqf.cpp:38-38 | the quoted alternatives succeed with s and rest if and only if the text is quote, s, the same quote, rest, and no character of s is that quote or has eight bits |
| SqfRoundTrip.QuotedOnly | BreakingPointExt/Sqf.cpp:38-47 | a text that begins with a quote is a value exactly as such a quoted string: not without a closing quote, not with an eight-bit character in front of it |
| SqfSamples.NothingElseBegins | BreakingPointExt/Sqf.cpp:38-47 | only blank and the codes 9 to 13 are skipped, and no value begins with a character other than the listed ones |
| SqfSamples.WordsOnly | BreakingPointExt/Sqf.cpp:41-46 | a text that begins with t, f or a is a value exactly when true, false or any stands there in lower case |
| SqfSamples.SpecialWords | BreakingPointExt/boost/include/boost/spirit/home/qi/numeric/real_policies.hpp:120-168 | nan, with anything in parentheses or not, inf and infinity, in any case and with any sign |
| SqfSamples.TrailingComma | BreakingPointExt/Sqf.cpp:47-47 | a comma that no value follows makes the array fail |
| SqfSamples.SkippedDouble | BreakingPointExt/boost/include/boost/spirit/home/qi/numeric/detail/real_impl.hpp:270-290 | 1.0e999 5 is read as the integer 5 |
| SqfRoundTrip.SpacesAreSkipped | BreakingPointExt/Sqf.cpp:81-90 | spaces in front of a value, a comma and a closing bracket say nothing |
| SqfRoundTrip.ReadsBack | BreakingPointExt/Sqf.cpp:38-47 | parsing print(v) + rest gives the normal form of v and leaves exactly rest, for every nesting, both notations of doubles, both generators, and every separator after it |
| SqfRoundTrip.NeverItself | BreakingPointExt/Sqf.cpp:38-47 | no string written without quotes is ever read back as itself |
| SqfRoundTrip.ReadBackMeansClean | BreakingPointExt/Sqf.cpp:38-47 | a value whose shape and strings read back has only strings the quotes can hold, and none where none are quoted |
| SqfRoundTrip.ValueRoundTrip | BreakingPointExt/Sqf.cpp:38-47 | the round trip with continuation holds if and only if the strings are clean and the value is in normal form |
| SqfRoundTrip.ReadsNarrow | BreakingPointExt/Sqf.cpp:41-47 | whatever the grammar accepts has its integers in the narrowest variant, except a bare integer with a digit behind spaces |
| SqfRoundTrip.NormalPrints | BreakingPointExt/Sqf.cpp:125-134 | the normal form prints the same text if and only if no double in it carries; otherwise the texts differ at a place both have |
| SqfRoundTrip.PrintAfterParse | BreakingPointExt/Sqf.cpp:125-134 | print after parse on every fully accepted text: re-reading gives the same value up to rounding if and only if no string holds a double quote; printing that gives the same text if and only if no double carried, and always from the second time on |
| SqfSamples.SmallSamples | BreakingPointExt/Sqf.cpp:309-312 | the first four samples of the source's check: each is read, nothing left over, and written as the same text |
| SqfSamples.MixedSample | BreakingPointExt/Sqf.cpp:313-313 | the sample [5,"hello",3.0], the same |
| SqfSamples.NestedSample | BreakingPointExt/Sqf.cpp:314-314 | the sample of nested empty arrays, the same |
| SqfSamples.LongestSample | BreakingPointExt/Sqf.cpp:315-315 | the sample of twelve elements, the same; it holds 10130.1, true, false and any |
| SqfCounterexamples.QuoteInside | BreakingPointExt/Sqf.cpp:38-38 | an accepted text in single quotes whose printed form reads differently |
| SqfCounterexamples.SameTextOtherValue | BreakingPointExt/Sqf.cpp:38-47 | one text printed for a value and read as another |
| SqfParameters.OnlySurvivors | BreakingPointExt/Sqf.cpp:63-63 | a field read back as written satisfies the survival condition |
| SqfParameters.ParametersRoundTrip | BreakingPointExt/Sqf.cpp:63-65 | a printed list is read back, nothing left over, if and only if every field survives in front of the fields after it |
| SqfParameters.EmptyFieldSurvives | BreakingPointExt/Sqf.cpp:63-65 | empty fields survive anywhere |
| SqfParameters.QuotedField | BreakingPointExt/Sqf.cpp:63-63 | a field between double quotes is read as what is between them, colons included |
| SqfConsumption.ValueEnds | BreakingPointExt/Sqf.cpp:41-47 | whatever the grammar reads, what it leaves is an end of the text |
| SqfConsumption.FirstField | BreakingPointExt/Sqf.cpp:63-65 | the first field of any text with a colon: the value grammar's if it ends in front of a colon, otherwise the text up to the first colon without the spaces in front; then the fields behind that colon |
| SqfConsumption.NoColonNoFields | BreakingPointExt/Sqf.cpp:63-65 | a text without a colon holds no parameters, and all of it but the spaces in front is left |
| SqfSampleLists.CharacterList | BreakingPointExt/Sqf.cpp:336-344 | the first sample list: read as its seven fields and written as the same text |
| SqfSampleLists.PlayerList | BreakingPointExt/Sqf.cpp:336-344 | the second sample list, the same |
| SqfParameters.FieldsReadTogether | BreakingPointExt/Sqf.cpp:63-65 | two strings that each survive alone are read as one when written one after the other |
| SqfLocality.ClosedValue | BreakingPointExt/Sqf.cpp:41-47 | on a text without quotes and parentheses in front of its colon, the grammar gives the same result whatever stands behind the colon |
| SqfLocality.SurvivalIsLocal | BreakingPointExt/Sqf.cpp:63-63 | a raw string without quotes and parentheses survives in front of any fields if and only if it survives at the end |
| SqfLocality.ListsWithoutQuotes | BreakingPointExt/Sqf.cpp:63-65 | a list whose strings hold neither is read back if and only if each field survives on its own |
| TicketProtocol.TicketStepKeeps | BreakingPointExt/AsyncWorker.cpp:41-54 | each worker step on the tickets keeps the ticket invariant |
| TicketProtocol.CreateKeeps | BreakingPointExt/AsyncWorker.cpp:78-86 | each step of createTicket keeps it |
| TicketProtocol.EraseKeeps | BreakingPointExt/AsyncWorker.cpp:113-120 | collecting keeps it, adding exactly one delivery |
| TicketProtocol.StepKeepsTickets | BreakingPointExt/AsyncWorker.cpp:41-120 | every step of either thread keeps it |
| TicketProtocol.StepKeepsQueues | BreakingPointExt/AsyncWorker.cpp:30-72 | every step keeps both queues conserved |
| TicketProtocol.StepKeepsExecution | BreakingPointExt/AsyncWorker.cpp:41-54 | every step keeps execution in creation order |
| TicketProtocol.StepKeepsPriority | BreakingPointExt/AsyncWorker.cpp:56-67 | every step keeps the record that an unimportant command is taken only after both looks |
| TicketProtocol.Reachable | BreakingPointExt/AsyncWorker.cpp:23-120 | all invariants hold at every point of every interleaving |
| TicketProtocol.TicketMap | BreakingPointExt/AsyncWorker.cpp:41-54 | every interleaving: mutual exclusion, cur_id <= id, and for each key what the map holds: absent, waiting with its command, in progress, ready with its result, or collected |
| TicketProtocol.ExactlyOnce | BreakingPointExt/AsyncWorker.cpp:78-120 | every interleaving: tickets run once each in creation order; a collected text is callExtension of the command created under that number, after it ran, at most once |
| TicketProtocol.QueuesAndPriority | BreakingPointExt/AsyncWorker.cpp:30-72 | every interleaving: executed, in flight, pending is what was enqueued in order; an unimportant command is taken right after, in the same iteration, an empty important queue and no outstanding ticket were seen |
| TicketProtocol.StopSticks | BreakingPointExt/AsyncWorker.cpp:88-91 | stop() keeps the flag down in every continuation if and only if run() has passed its first assignment; what the worker then does is stated by StopEndsCalls and StopThenFinished |
| TicketProtocol.Iteration | BreakingPointExt/AsyncWorker.cpp:28-75 | undisturbed, an iteration that has something to do takes a fixed number of steps and removes exactly one thing: important first, then tickets, then unimportant |
| TicketProtocol.Drain | BreakingPointExt/AsyncWorker.cpp:28-75 | undisturbed, the worker reaches its sleep after exactly 4 c + 11 t + 8 u + 6 steps, having run all important commands, all tickets, all unimportant commands, in order |
| WorkerLiveness.StopEndsCalls | BreakingPointExt/AsyncWorker.cpp:28-91 | every continuation of stop(), once run() has passed its first assignment: the flag stays down, no call is lost, at most one more is made, and none when the worker is between two iterations |
| WorkerLiveness.StopThenFinished | BreakingPointExt/BreakingPointExt.cpp:182-193 | with the client between two calls, stop() brings the worker out of its loop within eleven of its own steps, wherever it was, and it stays out: the join in Shutdown returns |
| WorkerLiveness.FinishedStays | BreakingPointExt/AsyncWorker.cpp:28-76 | a worker that has left the loop never does anything again |
| WorkerLiveness.AlwaysDrains | BreakingPointExt/AsyncWorker.cpp:28-75 | from any place of the loop, asleep too, the worker alone does all that is waiting and sleeps, within 10 steps and those of Drain |
| WorkerLiveness.ContendedIteration | BreakingPointExt/AsyncWorker.cpp:41-58 | while the client holds the mutex, tryLock fails without blocking and the iteration goes round without a call |
| WorkerLiveness.EventsAreTrue | BreakingPointExt/AsyncWorker.cpp:28-67 | every recorded look is one that found what it says, and an unimportant command leaves its queue from the front and only in that step |
| AsyncWorker.WhatPollSees | BreakingPointExt/Main.cpp:166-183 | what the invariant says of a key, wherever the worker is: absent, ready or waiting, and why |
| AsyncWorker.NoCallUnderLock | BreakingPointExt/AsyncWorker.cpp:41-54 | every interleaving: the worker never holds the mutex while it runs a command, and alone it unlocks within three steps, none of them a call |
| AsyncWorker.CreateRuns | BreakingPointExt/AsyncWorker.cpp:78-86 | the schedule of a whole createTicket, waiting included: the worker lets go of the mutex, then the ticket is there |
| AsyncWorker.CollectRuns | BreakingPointExt/Main.cpp:166-174 | the schedule of a whole collection: the text is the answer even when only the flag had been stored at the look |
| AsyncWorker.AsyncWorker.WorkerMoves | BreakingPointExt/AsyncWorker.cpp:43-54 | one step of the worker inside its critical section is the protocol step |
| AsyncWorker.AsyncWorker.AwaitMutex | BreakingPointExt/AsyncWorker.cpp:82-82 | waiting for the mutex: the worker moves until it has let go, at most three steps, and nothing else changes |
| AsyncWorker.AsyncWorker.CreateTicket | BreakingPointExt/AsyncWorker.cpp:78-86 | wherever the worker is, the call is its protocol schedule; it returns a key that was not there and now holds the command |
| AsyncWorker.AsyncWorker.TicketExists | BreakingPointExt/AsyncWorker.cpp:103-106 | presence of the key |
| AsyncWorker.AsyncWorker.TicketReady | BreakingPointExt/AsyncWorker.cpp:108-111 | the flag, and a default ticket, not ready and empty, left behind for an absent key |
| AsyncWorker.AsyncWorker.TicketResult | BreakingPointExt/AsyncWorker.cpp:113-120 | after the wait for the mutex: the text, the key removed, the delivery recorded |
| AsyncWorker.AsyncWorker.PollTicket | BreakingPointExt/Main.cpp:166-183 | wherever the worker is, the game gets callExtension of its command exactly when stored and not collected, WAIT exactly when outstanding, EMPTY exactly otherwise; the call is its protocol schedule |
| AsyncWorker.AsyncWorker.Execute | BreakingPointExt/AsyncWorker.cpp:93-101 | the call is the protocol step: one queue grows at its end |
| AsyncWorker.AsyncWorker.Stop | BreakingPointExt/AsyncWorker.cpp:88-91 | the call is the protocol step |
| AsyncWorker.AsyncWorker.ProcessTicket | BreakingPointExt/AsyncWorker.cpp:43-54 | the next ticket is replaced by its ready result and the call recorded |
| AsyncWorker.AsyncWorker.Iterate | BreakingPointExt/AsyncWorker.cpp:30-74 | the loop body does what the protocol iteration does, and sleeps exactly when nothing is left |
| AsyncWorker.AsyncWorker.RunUntilSleep | BreakingPointExt/AsyncWorker.cpp:23-76 | run() alone reaches its first sleep with every queue empty, every ticket answered, everything executed in priority order, in exactly the protocol steps |

## Left out

- Widths of integer types in rationals and ticket numbers: apart from the least value in `normalize`, the components of a rational are unbounded, and so are `id` and `cur_id`; overflow inside the operators and wrap-around of `long int` are not modelled.
- CrcEngine.AugmentedCrc: requires an unreflected table and at least eight bits of width, as augmented_crc itself instantiates; widths below a byte have no augmented form here.
- CrcEngine.CrcOptimal.constructor: the word has at least eight bits, which every unsigned type has.
- Threads sharing one CRC table during its first filling, and the choice of the smallest or fastest unsigned type for a width.
- Real arithmetic in place of doubles: rounding to 53 bits, overflow to infinity and negative zero are not modelled; casting a double beyond 64 bits to an integer, undefined in C++, is bad_get here.
- Sqf.Print: takes doubles that are zero or at least 10^-308 and below 1.7975 * 10^308 in magnitude; below, the generator indexes its table of powers out of range, and above, rounding to three places leaves the doubles.
- Sqf.LexicalCast: the C locale, without digit grouping.
- GetDouble, GetStringAny, IsNull, IsAny: one case each.
- Stream state around parsing and printing: operator>> and operator<< set failbit and skip flags; a parse is a function of the text.
- AsyncWorker.AsyncWorker.AwaitMutex: the shortest wait; longer ones, in which the worker goes on after unlocking, are runs of TicketProtocol.
- AsyncWorker.AsyncWorker.RunUntilSleep: stops at the first sleep and runs without the client; the endless loop and all interference are in TicketProtocol.
- Memory weaker than sequential consistency, several client threads, and the inside of the lock-free queues, whose header readerwriterqueue.h is not part of this model: a queue is a sequence with atomic operations.
- Calls of callExtension that throw or that call back into the worker.
- atol on the ticket number and the truncating copy into the game's output buffer.
- Console, DLL entry points, command line and ini handling, database, RCON sockets and login, VAC look-ups, and the handler bodies behind callExtension: input, output and forwarding.
- Stream input and output of rationals, converting constructors between component types, abs, and the operators that forward to the ones modelled.
