# Verified kernels of dynascript

This project models the algorithmic kernels of the dynascript runtime in Dafny and
proves what they promise. The kernels are plain C under a thin JavaScript boundary; the
model keeps their form: buffers, cursors, limb arrays and connection records that loops
update in place, with 32- and 64-bit arithmetic written out where it wraps.

`dafny verify dfyconfig.toml` checks everything.

| part | modules | what is shown |
|---|---|---|
| Printing and reading doubles (`src/dtoa.c`) | Arith, Digits, Limbs, Rounding, Bignum, Tables, Reals, Scaling, Float64, Log2Radix, FreeFormat, DigitSearch, ShortestSearch, Bits, Mantissa, ReadNumber, PrintNumber, PrintInteger | limb arithmetic is exact, scaling rounds once and correctly, and every finite positive double, printed in any radix from 2 to 36 and read again, comes back bit for bit |
| DEFLATE and gzip (`src/dyna-compress.c`) | BitSeq, BitIo, Huffman, DeflateFormat, Inflate, FixedBlock, StoredBlock, DynamicBlock, DynamicHeader, InflateStream, Deflate, Gzip, Crc, CrcLaw, GzipMember | the decoder accepts exactly the streams of RFC 1951 that fit, gunzip undoes gzip whenever gzip succeeds, the encoder's choice is the longest match at every position, and the CRC is a remainder of polynomials |
| HTTP server (`src/dyna-http.c`) | ConnLimits, UringReactor, UringReplies, FdQueue, HttpPump, WebSocket | no run of the io_uring reactor touches a freed connection, what its peers get are the replies to what they sent, in order, no connection is lost or served twice under any interleaving of the thread pool, whose stop always completes, and cutting a byte stream differently changes neither responses nor messages |
| Sorting (`src/cutils.c`) | SortSpec, HeapSort, Partition, Rqsort | a sorted permutation for every total preorder, on a stack of at most 50 entries |
| Primality (`src/dyna-mathx.c`) | NumberTheory, MillerRabin | a prime is never rejected, from Fermat's little theorem up |
| Hashing (`src/dyna-crypto.c`) | HashStream | any pieces give the digest of the whole padded message |
| Heap with a callback (`src/dyna-container.c`) | CallbackHeap | no reference is lost or freed twice, whatever the comparator does |
| CSV (`src/dyna-csv.c`, `src/dyna-docparse.c`) | CsvFormat, CsvTable, CsvStream | what survives serialize and parse, exactly, and how far the two parsers agree |
| Text encodings (`src/dyna-encoding.c`) | Ascii85, Base32 | every byte string survives, exactly which texts decode, and exactly which are canonical |

How the model stands in for what it does not contain:

- A double is its bit pattern or the pair (m, e) of its mantissa and exponent; reals are
  exact. One floating-point multiplication or division is a parameter that is assumed to
  round correctly, as section 4 of IEEE 754 demands (`ReadNumber.CorrectlyRounded`).
- Hash compression functions, digest extraction, the meaning of an HTTP request head and
  the responses are parameters; the results hold for all of them.
- A comparator is a pure function in the sorting modules. In CallbackHeap it is anything:
  at each call it may answer, throw, close the heap, or push to and pop the heap it is
  called from.
- Memory is unbounded. Where the source handles a failed allocation, a parameter says
  whether it failed or how much room there is.
- The kernel in UringReactor and the scheduler in FdQueue choose any enabled step. In
  UringReplies the kernel sends nothing on a closed descriptor.
- "Accepts exactly" contracts carry a ghost plan: any well-formed reading of the input
  that a caller may name is the one the decoder finds.

Where the code and its comments disagree, the model follows the code:

- The free-format search of js_dtoa does not always find the minimum number of digits:
  at powers of two, where the doubles below are closer than those above, it may stop
  with a digit too many (`ShortestSearch.LongerAtPowerOfTwo`). `ShortestSearch.FindDigits`
  states exactly when it does find the minimum.
- The two CSV parsers treat bytes after a closing quote differently;
  `CsvStream.AgreeExactly` states when that shows.
- The size of an HTTP request is summed up in 64 bits, so a huge Content-Length can make
  the pump answer one request many times (`HttpPump.WrapRepeats`);
  `HttpPump.WrapsExactly` states when sizes do no harm.
- A CSV row without cells reads back as a row of one empty cell, and a cell is cut at a
  NUL (`CsvTable.SerializeParse`).

## Model

| member | source | states |
|---|---|---|
| Limbs.UDiv1NormInit | src/dtoa.c:107-113 | the inverse is floor((2^64 - 1) / d) - 2^32 for every normalized limb d |
| Limbs.UDiv1Norm | src/dtoa.c:117-135 | for every normalized d and a1 < d the wrapped 32- and 64-bit arithmetic gives exactly the quotient and the remainder of a1 * 2^32 + a0 by d |
| Limbs.Correction | src/dtoa.c:126-134 | from an estimate at most one too small, the high limb of the wrapped difference tells which of the two candidates is the quotient |
| Bignum.Mpb.AddUi | src/dtoa.c:75-89 | adds one limb to a number of any length; the result is the carry out |
| Bignum.Mpb.Mul1 | src/dtoa.c:92-104 | multiplies by a limb and adds one: old value * b + l is the new value plus the returned limb in the next place |
| Bignum.Mpb.Div1 | src/dtoa.c:137-148 | quotient and remainder of a number of any length, with an incoming remainder, by a limb |
| Bignum.Mpb.Shr | src/dtoa.c:152-166 | shift right by 1 to 31 bits with bits shifted in; value and shifted-out bits make up the old number |
| Bignum.Mpb.Shl | src/dtoa.c:170-184 | shift left by 1 to 31 bits; value and the limb shifted out make up the old number |
| Bignum.Mpb.Div1Norm | src/dtoa.c:186-199 | called in place, divides a number of any length exactly by d, through the inverse of the normalized d |
| Bignum.Mpb.Renorm | src/dtoa.c:214-218 | drops leading zero limbs and keeps the value |
| Bignum.Mpb.GetBit | src/dtoa.c:300-310 | the bit at any position, zero beyond the number |
| Bignum.Mpb.RoundBit | src/dtoa.c:339-373 | whether dropping the low bits must add one, for each rounding mode: exactly when the exact quotient rounds up |
| Bignum.Mpb.ShrRound | src/dtoa.c:313-398 | the number becomes its value divided by 2^shift, correctly rounded in RNDN, RNDNA and RNDZ; a negative shift multiplies exactly |
| Bignum.Mpb.Cmp | src/dtoa.c:401-417 | the sign of the comparison of two normalized numbers is that of their values |
| Bignum.Mpb.SetU64 | src/dtoa.c:419-432 | the value is the 64-bit number, without a leading zero limb |
| Bignum.Mpb.GetU64 | src/dtoa.c:434-445 | the value, when it fits 64 bits |
| Bignum.Mpb.FloorLog2 | src/dtoa.c:448-456 | the position of the top bit of a nonzero number, -1 for zero |
| Bignum.Mpb.Mul1Base | src/dtoa.c:1352-1370 | multiplies by a radix power, 0 standing for 2^32, and adds a limb, growing by at most one limb |
| Rounding.RoundDivNearest | src/dtoa.c:339-373 | the rounding used as specification gives a nearest integer, with ties to even or away from zero |
| Rounding.StickyRounds | src/dtoa.c:943-971 | a truncated quotient with the remainder folded into its low bit rounds as the exact quotient does, once at least two bits are dropped |
| Tables.LimbFits | src/dtoa.c:721-727 | the powers of an odd radix part that mul_pow takes at once fit a limb |
| Tables.MaxDigitsSuffice | src/dtoa.c:741-744 | one digit fewer than dtoa_max_digits_table already exceeds 2^53, for every radix |
| Tables.MaxDigitsFit | src/dtoa.c:1215-1216 | radix^P stays below 2^63 for the largest digit count of every radix |
| Tables.Pow5Inverse | src/dtoa.c:220-239 | every stored inverse is the inverse of the normalized power of five |
| Scaling.PowUi | src/dtoa.c:242-269 | a^b modulo 2^64, by table or by squaring |
| Scaling.PowUiInv | src/dtoa.c:271-292 | a^b shifted up to the top bit, its shift and its inverse |
| Scaling.DivDown | src/dtoa.c:936-971 | the chained divisions leave floor(v * 2^k / radix1^g) with its low bit set exactly when some remainder was nonzero |
| Scaling.MulPow | src/dtoa.c:912-975 | a * radix^f up to a power of two: exact upwards, and downwards truncated with a sticky bit and at least the requested number of bits |
| Scaling.MulPowRound | src/dtoa.c:978-986 | m * 2^e * radix^f correctly rounded to an integer, for every e and f of either sign and every rounding mode |
| Float64.RoundToD | src/dtoa.c:989-1020 | the 53-bit mantissa and exponent, with the precision lost below the normal range and the carry into the next binade |
| Float64.RoundCodeExact | src/dtoa.c:989-1020 | round_to_d on an exact number is rounding to the nearest float64 |
| Float64.RoundCodeSticky | src/dtoa.c:989-1020 | round_to_d on a truncated quotient of at least 56 bits with a sticky bit is rounding of the exact quotient |
| Float64.MulPowRoundToD | src/dtoa.c:1025-1032 | a * radix^f rounded once, correctly, to a float64 |
| Log2Radix.MulLog2RadixIsFloor | src/dtoa.c:474-488 | radix^r <= 2^a < radix^(r+1) for the r returned, for every radix 2 to 36 and every a from -2048 to 2047 |
| Log2Radix.BracketedLog | src/dtoa.c:474-488 | a multiplier strictly between neighbouring fractions around log_radix(2) gives the exact floor up to the size of their denominators |
| FreeFormat.FirstTry | src/dtoa.c:1199-1201 | a value scaled to between radix^(P-1) and 2 * radix^P rounds to an integer in the same range |
| FreeFormat.Tries | src/dtoa.c:1217-1226 | one of the two exponents tried gives a mantissa of exactly P digits |
| FreeFormat.TryDigits | src/dtoa.c:1217-1226 | the inner loop ends after at most two rounds with the value rounded to P digits |
| FreeFormat.StripZeros | src/dtoa.c:1227-1231 | the number of digits shrinks with the trailing zeros; the number stays the same |
| FreeFormat.CloseRoundsTo | src/dtoa.c:1235-1241 | a number within half a unit of a double reads back as it, within a quarter of a unit below a power of two |
| DigitSearch.MostDigitsReadBack | src/dtoa.c:1206-1234 | the first try, which the code never checks, reads back for every double and radix |
| DigitSearch.TryIsClosest | src/dtoa.c:1217-1226 | the number tried for P digits is at least as close to the double as any number of up to P digits |
| DigitSearch.CloserReadsBack | src/dtoa.c:1235-1241 | what is as close to the double as some number that reads back, reads back too, unless the float spacing differs on the two sides |
| DigitSearch.NoShorter | src/dtoa.c:1241-1251 | when the P-digit try does not read back, no number of up to P digits does (same condition) |
| ShortestSearch.NoneAtAll | src/dtoa.c:1241-1251 | at a power of two, when neither the closest number of P digits nor the next one above reads back, no number of up to P digits does |
| ShortestSearch.ShorterTry | src/dtoa.c:1227-1231 | a try that ends in zeros is also the try of every length the stripping skips |
| ShortestSearch.FindDigits | src/dtoa.c:1199-1255 | for every finite double and radix the search gives the value rounded to the first digit count, going down, whose next shorter rounding does not read back; the digits convert back to exactly that double, and are the fewest possible exactly when no digit count is passed over, that is, at none does the next number up read back while the closest one does not |
| ShortestSearch.EvenlySpaced | src/dtoa.c:1199-1255 | for a double whose neighbours are equally far away the closest number reads back if the next one up does, so no digit count is passed over |
| ShortestSearch.LongerAtPowerOfTwo | src/dtoa.c:1212-1252 | the digits are not always the fewest: at 2^89 the closest 16 digits do not read back but the next ones up do, so 16 decimal digits are passed over |
| Bits.DecomposeInverse | src/dtoa.c:1142-1185 | taking a finite nonzero pattern apart gives a normalized (m, e), and putting it together again gives the pattern |
| Bits.BitsInverse | src/dtoa.c:1695-1712 | the pattern of a normalized double, taken apart, gives that double back |
| Bits.DecomposeValue | src/dtoa.c:1142-1185 | the (m, e) a pattern is taken apart into has the value that section 3.4 of IEEE 754 gives the pattern, subnormal or normal |
| Bits.BitsValue | src/dtoa.c:1695-1712 | the pattern put together from (m, e) has, by section 3.4 of IEEE 754, the value of (m, e) |
| Bits.PatternOrder | src/dtoa.c:1142-1185 | patterns are ordered as the values they stand for |
| Bits.NearestPattern | src/dtoa.c:1692-1712 | no pattern of a finite float64 stands for a value closer to a positive real than the pattern the rounding specification picks |
| Bits.RoundToDoubleNearest | src/dtoa.c:989-1020 | no double is closer to a positive real than the one the rounding specification picks |
| Mantissa.RadixBaseIsPower | src/dtoa.c:729-739 | every radix_base_table entry is radix^digits_per_limb, modulo 2^32 |
| Mantissa.AppendDigit | src/dtoa.c:1548-1557 | one more digit keeps limb, bignum and digits read in step |
| Mantissa.ReadMantissa | src/dtoa.c:1503-1564 | the deferred mantissa (the 64-bit word, or the bignum seeded from it at the 17th digit) is the integer of the kept digits; extra digits are noticed exactly when their value is nonzero |
| ReadNumber.ExponentLimits | src/dtoa.c:754-770 | radix^max_exponent is above 2^1024 and radix^min_exponent at most 2^-1075, for every radix whose entry is used |
| ReadNumber.FastPathRounds | src/dtoa.c:1653-1668 | one correctly rounded multiplication or division by a power of ten gives the nearest double to the number read |
| ReadNumber.ConvertRadix | src/dtoa.c:1650-1712 | every branch (fast path, bignum path, overflow and underflow cuts, subnormals) yields the double nearest to the number the kept digits stand for |
| ReadNumber.ConvertBinary | src/dtoa.c:1575-1649 | for a power-of-two radix the result is the double nearest to the number all the digits stand for, however many there are |
| PrintNumber.LimbDigits | src/dtoa.c:552-597 | the low digits of a limb, by division or by shifts |
| PrintNumber.OutputDigits | src/dtoa.c:866-908 | exactly the requested low digits of the number, in any radix |
| PrintNumber.Search | src/dtoa.c:1199-1331 | the digits the free-format search prints are the value rounded to the digit count it stops at, with neither end zero, none of up to that many digits closer, and the fewest that read back exactly when no count is passed over; they read back as the same bit pattern |
| PrintInteger.U32Toa | src/dtoa.c:599-622 | two digits per step: the decimal digits of the number, without leading zeros |
| PrintInteger.U64Toa | src/dtoa.c:635-664 | in pieces of nine digits: the decimal digits of a 64-bit number, without leading zeros |
| PrintInteger.U64ToaRadix | src/dtoa.c:677-708 | the digits of a 64-bit number in any radix, without leading zeros |
| PrintInteger.PrintThenRead | src/dtoa.c:1127-1331 | for every finite positive double, every radix 2 to 36 and either exponent setting: unless the exponent form is asked for, a whole number below 2^53 is printed as exactly its own digits; every other one as the digits of the search; the double is nearest to what is printed, and reading it gives the bit pattern |
| BitIo.BitReader.Bits | src/dyna-compress.c:108-122 | the next need bits of the byte stream, low bit first; past the end the error flag is set |
| BitIo.BitWriter.Wbits | src/dyna-compress.c:415-429 | appends exactly the low bits of the value, or fails for lack of room |
| BitIo.BitWriter.Flush | src/dyna-compress.c:432-444 | completes the last byte with zero bits |
| Huffman.Build | src/dyna-compress.c:135-160 | counts, and a symbol table ordered by length and value; negative exactly for an over-subscribed code, otherwise the number of unused codes |
| Huffman.Decode | src/dyna-compress.c:165-182 | returns the symbol whose canonical code (section 3.2.2 of RFC 1951) starts the bits and consumes exactly that code; -1 only when no code starts them; never leaves the table |
| Huffman.PrefixFree | src/dyna-compress.c:135-160 | at most one symbol of a code that is not over-subscribed can start a bit string |
| Huffman.CodesGrow | src/dyna-compress.c:165-182 | longer canonical codes lie above every extension of the shorter ones |
| Huffman.FirstIsZero | src/dyna-compress.c:135-160 | the first symbol in order, by length and then by value, has the code 0 |
| Huffman.CodesFollow | src/dyna-compress.c:165-182 | the code of every other symbol is the next number after that of the symbol before it, with zeros up to its own length: section 3.2.2 of RFC 1951 |
| DeflateFormat.ItemUnique | src/dyna-compress.c:205-244 | at most one literal or back-reference can start a bit string |
| DeflateFormat.LengthLaw | src/dyna-compress.c:188-195 | the ranges of the length codes follow on one another from 3, four codes for each number of extra bits from the ninth on, and the last code is 258 alone |
| DeflateFormat.DistanceLaw | src/dyna-compress.c:196-203 | the ranges of the distance codes follow on one another from 1 to 32768, two codes for each number of extra bits from the fifth on |
| Inflate.NextItem | src/dyna-compress.c:205-244 | one round decodes the item at the start of the bits, and fails exactly when there is none, or it reaches too far back, or it does not fit |
| Inflate.InflateCodes | src/dyna-compress.c:205-244 | succeeds exactly when the bits start with items and an end-of-block code, and writes what they stand for |
| FixedBlock.FixedCodeIs | src/dyna-compress.c:460-479 | the codes the encoder computes are the canonical codes of the fixed code lengths |
| FixedBlock.InflateFixed | src/dyna-compress.c:277-297 | decodes a fixed block exactly |
| StoredBlock.InflateStored | src/dyna-compress.c:247-274 | succeeds exactly on a stored block with matching length fields that fits |
| DynamicBlock.ReadRuns | src/dyna-compress.c:328-356 | the run-length coded code lengths, accepted exactly when they add up to both alphabets |
| DynamicBlock.ReadHeader | src/dyna-compress.c:300-365 | a dynamic block header is accepted exactly when there is one, and both tables are those of its code lengths |
| DynamicHeader.OrderIsLaw | src/dyna-compress.c:302-304 | the order of the code length symbols is 16, 17, 18, 0 and then the lengths from 8 upwards and from 7 downwards in turn |
| DynamicHeader.RunsWritten | src/dyna-compress.c:328-356 | runs that spell the code lengths, written as symbol and extra bits, are read as exactly those lengths, whatever follows |
| DynamicHeader.HeaderWritten | src/dyna-compress.c:300-365 | whatever codes, code length code, number of its lengths and runs a writer chooses as section 3.2.7 of RFC 1951 has it, what it writes starts with the header that says so, whatever follows |
| InflateStream.InflateDynamic | src/dyna-compress.c:300-367 | decodes a dynamic block exactly |
| InflateStream.NextBlock | src/dyna-compress.c:382-397 | one block of any type, accepted exactly when there is one |
| InflateStream.InflateAll | src/dyna-compress.c:370-399 | succeeds exactly on the streams of section 3 of RFC 1951 whose output fits, and returns the bytes they stand for |
| Deflate.RevBits | src/dyna-compress.c:447-455 | the low bits in the opposite order |
| Deflate.EmitLl | src/dyna-compress.c:460-479 | writes the canonical code of the symbol |
| Deflate.LenIndex | src/dyna-compress.c:483-490 | the last length code whose base is not above the match length, whose range holds it |
| Deflate.DistIndex | src/dyna-compress.c:491-498 | the last distance code whose base is not above the distance, whose range holds it |
| Deflate.EmitMatch | src/dyna-compress.c:501-518 | writes the bits of the back-reference of that length and distance, in the last codes that can hold them |
| Deflate.FindMatch | src/dyna-compress.c:574-609 | the longest match, and the nearest of those, among the last 256 positions in the window whose three bytes have the same hash; none exactly when no such position agrees in its first byte |
| Deflate.Insert | src/dyna-compress.c:607-608 | the chains lead to the last position of every hash, and from each position to the one before it with the same hash |
| Deflate.GreedyUnique | src/dyna-compress.c:571-637 | the literals and back-references the encoder chooses are determined by the input |
| Deflate.EncodeStep | src/dyna-compress.c:571-637 | one round writes the best match when it has three bytes at least, and else the byte; the items written stay in step with the bytes read, and the chains complete |
| Deflate.DeflateFixed | src/dyna-compress.c:537-643 | the bits written are a final fixed block whose items stand for exactly the input and are the greedy choice at every position |
| Gzip.FixedDecodes | src/dyna-compress.c:537-643 | a fixed block decodes to the input |
| Gzip.DeflateStored | src/dyna-compress.c:647-681 | writes the stored blocks of the input, and succeeds exactly when they fit |
| Gzip.StoredDecodes | src/dyna-compress.c:647-681 | stored blocks decode to the input |
| Gzip.StoredStreamSize | src/dyna-compress.c:697-698 | the size computed in advance is the size of the stored form |
| Crc.ComputeCrc | src/dyna-compress.c:51-62 | the running register gives the CRC of the bytes |
| CrcLaw.StepLaw | src/dyna-compress.c:58-59 | one step of the register is multiplication by x modulo the generator x^32 + x^26 + ... + 1 |
| CrcLaw.CrcIsRemainder | src/dyna-compress.c:51-62 | the CRC, its bits inverted, has no term above x^31 and differs by a multiple of the generator from the message times x^32 with its first 32 bits inverted: the remainder that section 8 of RFC 1952 asks for |
| GzipMember.GzipBuild | src/dyna-compress.c:689-767 | the member is the fixed header, a body that decodes to the input and its trailer; with room for the stored form it succeeds and the body is never longer than that |
| GzipMember.SkipHeader | src/dyna-compress.c:773-816 | the start of the body behind any of the optional header fields of section 2.3 of RFC 1952 |
| GzipMember.GunzipDecode | src/dyna-compress.c:771-829 | every member whose contents fit is accepted and gives its contents; whatever is accepted decodes to output matching the CRC and the length in its trailer |
| GzipMember.GzipThenGunzip | src/dyna-compress.c:537-829 | whenever gzip succeeds on an input of up to 2^30 bytes, whichever encoding it chose, gunzip succeeds on its output and returns the input; gzip succeeds whenever the stored form and the result fit |
| NumberTheory.Euclid | src/dyna-mathx.c:597-614 | a prime that divides a product divides a factor |
| NumberTheory.BinomialTheorem | src/dyna-mathx.c:597-614 | (x + 1)^n as a sum of binomial terms |
| NumberTheory.Fermat | src/dyna-mathx.c:597-614 | a^(p-1) leaves 1 modulo a prime p that does not divide a |
| NumberTheory.SquareRoots | src/dyna-mathx.c:597-614 | modulo a prime only 1 and -1 square to 1 |
| MillerRabin.Powmod | src/dyna-mathx.c:556-567 | a^d mod n by squaring and multiplying |
| MillerRabin.IsWitness | src/dyna-mathx.c:598-613 | the loop accuses n exactly when a^d is not 1 and none of a^d, a^2d, ..., up to the last square before n - 1, is -1 modulo n |
| MillerRabin.PrimeHasNoWitness | src/dyna-mathx.c:597-614 | no base below a prime accuses it |
| MillerRabin.IsPrimeU64 | src/dyna-mathx.c:573-616 | accepts exactly the twelve small primes and the numbers none of them divides or accuses; a prime is never rejected; below 41^2 the answer is exact |
| HeapSort.SiftDown | src/cutils.c:495-501 | the element sinks to its place: the heap order is restored below it by a rearrangement |
| HeapSort.Heapsortx | src/cutils.c:483-515 | a sorted rearrangement of the stretch, and nothing outside it changes |
| Partition.Med3 | src/cutils.c:517-522 | one of the three positions, with one of the other two elements not above and the other not below its element |
| Partition.ScanBoth | src/cutils.c:560-586 | the two scans leave equal elements at both ends and smaller ones before greater ones |
| Partition.JoinMiddle | src/cutils.c:593-612 | the block swaps bring the equal elements to the middle |
| Partition.PartitionStep | src/cutils.c:555-612 | a rearrangement into smaller, equal and greater elements, with the sizes of both outer parts |
| Rqsort.InsertionSort | src/cutils.c:636-640 | a sorted rearrangement of a short stretch |
| Rqsort.Descend | src/cutils.c:548-635 | every partition keeps all elements in order up to the stretches still pending; stacked depths increase, so the stack never exceeds 50 entries |
| Rqsort.Rqsort | src/cutils.c:525-642 | a sorted permutation for every total-preorder comparator, across partitioning, heapsort fallback and insertion sort |
| UringReactor.StepKeeps | src/dyna-http.c:2050-2220 | every step of the dispatch loop from a state that keeps the invariant touches only live connections and keeps it, also when a freed address is used again at once |
| UringReactor.FlowClose | src/dyna-http.c:2111-2123 | a closing connection stays only while an operation names it, and is freed only when none does |
| UringReactor.RunsAreSafe | src/dyna-http.c:2050-2220 | in every state of every run: no handler touches a freed connection, the operations naming a connection are exactly those its flags say, the buffer of an unfinished send is unchanged, each provided buffer is in one place |
| UringReplies.RecvEffect | src/dyna-http.c:2144-2188 | handling received data appends exactly the data to the input before the pump sees it, leaves the unsent output in place and appends what the pump makes, and closes exactly when the input overran, the stream ended or failed, or the pump says so |
| UringReplies.SendEffect | src/dyna-http.c:2192-2218 | handling a finished send removes from the output exactly the bytes the kernel reports, pumps exactly when all are sent and the connection is not closing, and closes exactly when the send failed or the pump says so |
| UringReplies.NoByteLost | src/dyna-http.c:2050-2220 | in every state of every run, for each connection since its accept: the bytes the kernel took, then those it did not take yet, are exactly the bytes the pump made, in order |
| UringReplies.RunsReply | src/dyna-http.c:2050-2220 | in every state of every run, with the pump of the reactors: the bytes the kernel took for a connection are the first of the replies to the bytes received on it, and while it is not closing, those, the waiting output and the replies to the waiting input are all of them |
| WebSocket.MaskedTwice | src/dyna-http.c:2893-2895 | masking twice with the same key gives the data back |
| WebSocket.MaskedIs | src/dyna-http.c:2893-2895 | masked data is, byte by byte, the exclusive or with byte i mod 4 of the key (section 5.3 of RFC 6455), and nothing else is |
| WebSocket.WsConn.Unmask | src/dyna-http.c:2893-2895 | in place, byte i of the payload becomes its exclusive or with byte i mod 4 of the key, and nothing else changes |
| WebSocket.WsConn.Process | src/dyna-http.c:2858-2933 | the connection ends as draining all complete frames of its buffer says |
| WebSocket.WsConn.OnRecv | src/dyna-http.c:3549-3575 | appends the bytes received, up to the size cap, and processes them |
| WebSocket.ParseFrame | src/dyna-http.c:2858-2896 | every well-formed masked frame (section 5.2 of RFC 6455), with any of the three length forms, is read back with its payload, whatever follows |
| WebSocket.ParseWire | src/dyna-http.c:2858-2896 | a frame whose body is the exclusive or of any payload with its key, laid out as section 5.2 of RFC 6455 says, is read back with that payload |
| WebSocket.CutsDoNotMatter | src/dyna-http.c:3549-3575 | where the stream is cut into receives does not change the outcome |
| WebSocket.MessagesArrive | src/dyna-http.c:2838-2933 | the messages dispatched are the fragments joined in order, with control frames between fragments or not |
| WebSocket.FramesFit | src/dyna-http.c:3549-3575 | when no frame together with a chunk exceeds the cap, no receive does, however long the stream is |
| WebSocket.DrainPart | src/dyna-http.c:2858-2933 | draining the first part of a stream of frames leaves the start of one of them |
| WebSocket.Receive | src/dyna-http.c:3549-3575 | receiving a stream in any pieces leaves the connection as draining the whole stream does, exactly when no receive exceeds the cap, as none does in a stream within the cap; frames in order, of any number, each leaving room for a chunk, arrive as their messages |
| HttpPump.AsyncConn.Pump | src/dyna-http.c:1801-1863 | answers the requests of the buffer one after the other, cut at sizes computed in 64-bit arithmetic, and keeps the rest |
| HttpPump.HeadIsFirst | src/dyna-http.c:1809-1819 | the head ends with the first CR LF CR LF of the buffer, and its length is 0 exactly when there is none |
| HttpPump.ServeMore | src/dyna-http.c:1801-1863 | serving what arrived first and then the rest is serving all at once |
| HttpPump.AnsweredOnce | src/dyna-http.c:1801-1863 | a stream of well-formed requests gets one response for each, in order, up to the first that ends the connection |
| HttpPump.MessagesFit | src/dyna-http.c:1911-1937 | when no request together with a chunk exceeds the cap, no receive does, however long the stream is |
| HttpPump.WrapsExactly | src/dyna-http.c:1822-1833 | 64-bit sizes serve a stream as unbounded ones would exactly when no size it reaches is 2^64 or more and wraps to one within the cap |
| HttpPump.WrapRepeats | src/dyna-http.c:1822-1833 | a Content-Length that completes the size to a multiple of 2^64 consumes nothing: the same request is answered until the cap on requests |
| HttpPump.SplitsDoNotMatter | src/dyna-http.c:1801-1863 | splitting the request stream at any byte boundaries does not change the responses or the decision to close, also when sizes wrap |
| HttpPump.Receive | src/dyna-http.c:1911-1937 | a reactor that appends and pumps answers as if the stream had come at once, exactly when no receive exceeds the cap; well-formed requests, of any number, each leaving room for a chunk, are answered once each |
| HttpPump.HandleConn | src/dyna-http.c:1154-1239 | for streams within its smaller limits the blocking loop sends exactly the bytes the pump would |
| FdQueue.StepKeeps | src/dyna-http.c:1241-1318 | every step of acceptor, workers and stop keeps the invariant, under every interleaving |
| FdQueue.OnePlace | src/dyna-http.c:1241-1318 | in every reachable state an accepted connection is in exactly one place (acceptor, queue, one worker, or closed once), and the ring indices agree with the count |
| FdQueue.StoppedClean | src/dyna-http.c:1298-1318 | after the stop every accepted connection was closed exactly once, and with at least one worker every enqueued one was served exactly once |
| FdQueue.FirstInFirstOut | src/dyna-http.c:1241-1293 | in every reachable state the connections taken from the queue and those in it are the enqueued ones, in order |
| FdQueue.DroppedWhenFull | src/dyna-http.c:1279-1289 | with workers, a connection closed without having been enqueued was handed over at a step of the run at which the queue held 256 |
| FdQueue.StopEnds | src/dyna-http.c:1241-1318 | once the stop flag is set, every schedule of acceptor, workers and stop is bounded in length and can go on until the stop is complete |
| HashStream.AbsorbBlocks | src/dyna-crypto.c:416-420 | the loop compresses every whole block of the data in order |
| HashStream.HashCtx.Update | src/dyna-crypto.c:400-425 | absorbing data leaves the context as if old message and data had been absorbed at once |
| HashStream.FieldIs | src/dyna-crypto.c:434-460 | the shifted 64-bit counter yields the length field in bits, in both byte orders and both sizes |
| HashStream.LastBlocks | src/dyna-crypto.c:431-464 | the blocks compressed at the end complete the padded message |
| HashStream.PaddedIs | src/dyna-crypto.c:431-464 | the padded message is the message, the byte 0x80, the fewest zeros that complete a block, and the length in bits, each of its bytes in its place for both byte orders |
| HashStream.Final | src/dyna-crypto.c:431-464 | the digest is the fold of the compression function over the padded message of section 5.1 of FIPS 180-4, or section 3 of RFC 1321 |
| HashStream.HashCtx.Digest | src/dyna-crypto.c:822-835 | a digest of everything absorbed so far, taken on a copy: the context does not change |
| CallbackHeap.Heap.constructor | src/dyna-container.c:145-163 | an open, empty heap that has taken in nothing |
| CallbackHeap.Heap.Close | src/dyna-container.c:124-136 | every stored reference is freed once; nothing stays stored |
| CallbackHeap.Heap.Serve | src/dyna-container.c:297-350 | a push or pop that the comparator makes on the heap being sifted changes nothing; a close gets through |
| CallbackHeap.Heap.Ask | src/dyna-container.c:170-203 | after any comparator call the ledger of references balances and the heap is unchanged or closed |
| CallbackHeap.Heap.SiftUp | src/dyna-container.c:209-241 | never touches a closed heap, keeps every reference whatever the comparator does, and restores the heap order for a comparator that behaves |
| CallbackHeap.Heap.SiftDown | src/dyna-container.c:245-292 | the same, downwards |
| CallbackHeap.Heap.Push | src/dyna-container.c:297-320 | refused when closed, busy or out of memory, otherwise the reference is stored or the heap closed; heap order kept |
| CallbackHeap.Heap.PopRoot | src/dyna-container.c:337-349 | the root is handed out, or freed when the sift failed, exactly once |
| CallbackHeap.Heap.Pop | src/dyna-container.c:323-350 | refused when closed or busy, undefined when empty; otherwise the root, which is a minimum for a comparator that behaves |
| CallbackHeap.Run | src/dyna-container.c:124-350 | for any calls and any comparator, which may throw, close the heap or call it: after close, what was taken in is exactly what was freed plus what was handed out |
| CallbackHeap.PushAllPopAll | src/dyna-container.c:297-350 | with a total-preorder comparator, pushing everything and popping everything sorts |
| CsvFormat.CellReads | src/dyna-csv.c:189-202 | a cell as written, quoted or not, reads back with what follows it left over |
| CsvFormat.RowReads | src/dyna-csv.c:203-213 | a row as written, with any of the three line ends, reads back as one record |
| CsvFormat.RowBlank | src/dyna-csv.c:203-213 | a row is written as a blank line exactly when it is a single empty cell or has none |
| CsvFormat.TableReads | src/dyna-csv.c:203-213 | the records of a written table are its rows, with blank lines where a row is one empty cell |
| CsvFormat.EndedReads | src/dyna-csv.c:165-175 | the same with any mix of LF, CRLF and CR as line ends, but for a CR before an empty line that ends in LF |
| CsvTable.Parse | src/dyna-csv.c:126-186 | the table holds every record of the text, blank lines included |
| CsvTable.FieldNeedsQuote | src/dyna-csv.c:189-193 | true exactly when the cell, up to its first NUL, holds a comma, quote or line end |
| CsvTable.EmitField | src/dyna-csv.c:194-202 | appends the cell, quoted with doubled quotes when it must be |
| CsvTable.Serialize | src/dyna-csv.c:203-213 | the text of all rows |
| CsvTable.SerializeParse | src/dyna-csv.c:126-213 | the text written is that of the table and the table read is that of the text; it is the same table exactly when every row has a cell and no cell holds a NUL; in general each row reads back in its normal form |
| CsvStream.Reader.Unescape | src/dyna-docparse.c:70-103 | unescapes in place: the field is the moved bytes, the write cursor never passes the read cursor, nothing before the field or after the cursor changes |
| CsvStream.Reader.ParseField | src/dyna-docparse.c:64-124 | the field is a stretch of the buffer between the old and the new cursor; earlier bytes are untouched |
| CsvStream.Reader.NextField | src/dyna-docparse.c:127-151 | the next field of the record, or the end of it |
| CsvStream.Reader.NextRow | src/dyna-docparse.c:155-176 | steps over the line end; says whether a record follows |
| CsvStream.Reader.ToArrays | src/dyna-docparse.c:180-221 | all records with at least one field, though the buffer is rewritten on the way |
| CsvStream.Agree | src/dyna-docparse.c:180-221 | on every text in which each run of bytes between a closing quote and the next comma or line end is empty, or is one byte before a line end or the end of the text, the result is that of the table parser without blank lines |
| CsvStream.AgreeExactly | src/dyna-docparse.c:104-108 | on texts where no such run has a quote for its second byte, the two parsers agree exactly then: any other run makes the row of this one longer or leaves the table parser with a row more, and the table parser never has fewer rows |
| CsvStream.FieldsCompare | src/dyna-docparse.c:64-124 | the same from the middle of a record on, whatever fields were read before |
| CsvStream.ReopenedAgrees | src/dyna-docparse.c:104-108 | where a quote among the stray bytes opens a field for the table parser the converse fails: a text on which one parser reads a closed and the other an unclosed field, with the same result |
| CsvStream.SerializedAgrees | src/dyna-docparse.c:180-221 | on the text of any table the result is the table in normal form without the rows of one empty cell |
| Ascii85.FullGroup | src/dyna-encoding.c:792-864 | a group of four bytes, also as z, reads back |
| Ascii85.PaddedIs | src/dyna-encoding.c:856-861 | padding with the digit 84 gives the largest completion, when it is below 2^32 |
| Ascii85.TailGroup | src/dyna-encoding.c:792-864 | one to three last bytes read back from the digits written |
| Ascii85.RoundTrip | src/dyna-encoding.c:792-864 | every byte string survives encoding and decoding |
| Ascii85.SpacesIgnored | src/dyna-encoding.c:785-836 | texts that differ only in white space decode alike |
| Ascii85.AcceptsExactly | src/dyna-encoding.c:826-864 | a text decodes exactly when, without white space, it is z and groups of five digits followed by no digit or two to four |
| Ascii85.GroupCanonical | src/dyna-encoding.c:826-864 | a group of five digits is what its bytes encode to exactly when its value is neither zero nor 2^32 or more |
| Ascii85.TailCanonical | src/dyna-encoding.c:854-862 | a tail of two to four digits is what its bytes encode to exactly when its largest completion is below 2^32 and leaves, modulo 256 to the power of the digits missing, less than 85 to that power |
| Ascii85.Canonical | src/dyna-encoding.c:792-864 | a text that decodes is, without white space, the encoding of its bytes exactly when every group and the tail are |
| Ascii85.Encode | src/dyna-encoding.c:792-819 | writes the encoding of the bytes |
| Ascii85.Decode | src/dyna-encoding.c:826-864 | the decoding of the text, or failure, with the word in 32-bit wrap-around arithmetic |
| Base32.BothAlphabets | src/dyna-encoding.c:404-410 | both alphabets are those of RFC 4648, character by character: 32 different ones, none of them the filler |
| Base32.RoundTrip | src/dyna-encoding.c:415-502 | with either alphabet every byte string survives encoding and decoding |
| Base32.BlockCanonical | src/dyna-encoding.c:446-502 | a block is what its bytes encode to exactly when its unused bits are zero |
| Base32.Canonical | src/dyna-encoding.c:446-502 | a text that decodes is the encoding of its bytes exactly when the bits left over in its last block are zero |
| Base32.Encode | src/dyna-encoding.c:415-439 | writes the encoding of the bytes |
| Base32.Decode | src/dyna-encoding.c:446-502 | the decoding of the text, or failure: bad length, foreign character, filler before the last block, impossible block shape |

## Left out

- MillerRabin.IsPrimeU64: that no composite number from 41^2 on passes the twelve bases rests on a published computation and is not modelled.
- CsvStream.AgreeExactly: with a quote for the second byte of a stray run the parsers lose step, and whether they agree then depends on the whole rest of the text; only an example is given.
- HashStream.Final: for the 128-bit length field the message is taken to be below 2^64 bytes, the range of the source's byte counter.
- HttpPump.HandleConn: says nothing about streams beyond the blocking loop's smaller limits, where the two loops differ by design.
- WebSocket.MessagesArrive: frames in order and without a close frame; handlers that close the connection themselves are not modelled.
- Log2Radix.MulLog2RadixIsFloor: for the exponents of doubles, not for every int.
- js_dtoa and js_atod at the level of characters: sign, decimal point, separators, exponent text, the FIXED and FRAC layouts, NaN and infinities. Digits and scale are modelled instead, and exponents do not overflow an int.
- The fixed scratch sizes of dtoa.c: limb arrays grow as needed.
- HMAC, the digest tables and the numeric content of the hash rounds.
- dyn_http_server_spawn when a thread cannot be created, timeouts, sockets, epoll, kqueue, HTTP parsing of the request head, chunked bodies, the WebSocket handshake.
- The JavaScript boundary: argument coercion, class registration, reference counts outside the heap, module tables.
- The object form of the docparse CSV reader, and the CSV file operations on rows and columns.
- The SIMD kernels: only their meaning (the first of several bytes, a count) is used.
- Lists, rings, varints, gcd, big factorials, UTF-8 and the other encodings: they would only add easy members.
- examples/pi_bigint.js, src/dyna-ml.c, src/dyna-bits.c, src/dyna-bytes.c, src/dyna-search.c and the I/O modules.
