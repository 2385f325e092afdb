# Models of Boost and Lua algorithms

Eight pieces of this collection carry algorithms whose correctness is not visible from their text. Each is modelled
here, in the form the source gives it (classes with mutable fields and loops where the source has them, functions where
it computes), and related to an independent description of what it is for.

| part | files | main results |
|---|---|---|
| Boost.CRC | `Bits`, `CrcTheory`, `Crc`, `CrcResults`, `CrcLaws` | the register is a polynomial remainder over GF(2); the table-driven form agrees with the bit-at-a-time form for every width, polynomial, flag combination, message and chunking; bursts of at most `Bits` bits are detected if and only if the polynomial's lowest bit is set; the augmented form vanishes exactly on the message's own remainder; a message followed by its checksum leaves a constant residue |
| Boost.Rational | `NumberTheory`, `RationalTheory`, `Rational`, `RationalResults`, `RationalBounded` | every sequence of operations yields the exact value in lowest terms and fails exactly where exact arithmetic does; the continued-fraction order is the order of values and never leaves the range of the machine type; the rational gcd and lcm are a true gcd and lcm; what normalization does in a wrapping type |
| Lua chunks | `LuaChunk`, `LuaFormat`, `LuaDump`, `LuaRoundTrip`, `LuaReload`, `LuaTruncation` | the bytes a dump consists of; what `ldump.c` writes, `lundump.c` reads back: exactly when no source name is lost without stripping, and always up to debug data with stripping; exactly which trees can be loaded, and that dumping a loaded tree loses nothing; a chunk cut short anywhere is refused |
| Lua references | `LuaRef` | over every legal run live references stay distinct and keep their objects, and the table never grows beyond the largest number of references live at once; `luaH_getn` returns a border |
| Boost.Tokenizer | `CharSeparator`, `EscapedList` | a whole run is the unique cut of the input at its delimiters, and what becomes of every character; a list written with escapes or quotes reads back, with its three exact exceptions |
| Lua name search | `LuaFindField` | the bounded search is sound and complete on cyclic tables and restores the stack |
| Lua buffers, tracebacks, rotation | `LuaBuffer`, `LuaTraceback`, `LuaRotate` | the pushed result is the concatenation of the pieces although sizes wrap; which levels a traceback reports; three reversals rotate |
| Lua `tonumber` | `LuaToNumber` | exactly which texts are numbers in a base, with the numeral's value modulo 2^64; every 64-bit integer reads back in every base |

Findings along the way, each with its exact condition:

- `crc_xmodem_type` uses the constant 0x8408, whose lowest bit is clear, so it misses some bursts of 16 bits
  (`CrcResults.ReadyMadeTypes`); the other three ready-made types detect all bursts up to their width.
- An unstripped dump of a function that has no source, inside one that has a source, comes back with the outer
  function's source (`LuaRoundTrip.LostSource`, `LuaRoundTrip.ChunkRoundTrip`). No loaded chunk has that shape
  (`LuaReload.LoadedFunction`), but `combine` makes one (Lua-5.3.3/luac.c:139-158): `luac` given several files puts
  them inside a function named "=(luac)", and a file holding a stripped chunk has no source
  (`LuaReload.CombinedRoundTrip`).
- `luaL_prepbuffsize` refuses some requests whose total fits a `size_t`, because the doubled size wraps below the
  number of characters already stored (`LuaBuffer.GrownSize`, `LuaBuffer.RefusedThoughRepresentable`).
- An escaped list consisting of one empty field without quotes reads back as no fields at all, an escaped 'n' reads
  back as a newline, and a separator that is also an escape character joins what it should separate
  (`EscapedList.ListRoundTrip`).
- `char_separator::reset` does nothing, so a function object that has finished a run in `keep_empty_tokens` mode misses
  an empty first field when it is used again (`CharSeparator.Tokenize`).
- In a two's-complement type whose negation wraps, `normalize` detects the least value as a denominator in lowest
  terms, but not as a numerator over a negative denominator, where the result has the wrong sign
  (`RationalBounded.Normalize`).
- In `keep_empty_tokens` mode the delimiter sets need not be disjoint: a character in both is kept. In
  `drop_empty_tokens` mode it is dropped.

Machine words are sequences of bits with the least significant bit first, at any width that holds the register.
Integers are unbounded except where a width is stated: `size_t` and `lua_Unsigned` wrap at 2^64, and the rational order
and normalization are checked against an arbitrary two's-complement range. C++ division truncates and is modelled by
`NumberTheory.TruncDiv` and `NumberTheory.TruncMod`. Chunks use the sizes and byte order of a 64-bit little-endian host.
`integer::gcd` and `integer::lcm` are taken as the non-negative greatest common divisor and least common multiple.

## Model

| member | source | states |
|---|---|---|
| CrcTheory.RunAppend | Boost-1.63.0/crc.hpp:784-797 | feeding a message in two parts is feeding it whole |
| CrcTheory.RunLinear | Boost-1.63.0/crc.hpp:727-751 | the register is linear over GF(2) in its start value and the message together |
| CrcTheory.Absorb | Boost-1.63.0/crc.hpp:955-966 | any group of message bits acts as a shift of the register plus a value that depends only on the message bits added to the bits shifted out |
| CrcTheory.RunIsRemainder | Boost-1.63.0/crc.hpp:727-751 | the final register is the one value of `Bits` bits for which message times x^Bits plus initial value times x^length is a multiple of the full polynomial plus that value |
| CrcTheory.BurstChangesRemainder | Boost-1.63.0/crc.hpp:727-751 | with the polynomial's lowest bit set, messages that differ only within a window of at most `Bits` bits leave different registers |
| CrcTheory.BlindBurstIsInvisible | Boost-1.63.0/crc.hpp:727-751 | without that bit, a particular burst of `Bits` bits is divided without remainder |
| CrcTheory.AugmentedMeetsPlain | Boost-1.63.0/crc.hpp:1064-1073 | an augmented register run over `Bits` zeros is the plain register started from the initial value run over zeros |
| CrcTheory.AugmentedRemainder | Boost-1.63.0/crc.hpp:1045-1076 | dividing a message followed by `Bits` more bits leaves the plain remainder with those bits added |
| Crc.Reflect | Boost-1.63.0/crc.hpp:306-327 | the low `Bits` bits come out in reverse order and all higher bits are zero |
| Crc.MaybeReflect | Boost-1.63.0/crc.hpp:564-621 | reverses the low bits exactly when asked to |
| Crc.WordStep | Boost-1.63.0/crc.hpp:733-750 | a division step on a full word acts on its low `Bits` bits as a step of the exact register, whatever lies above |
| Crc.CrcBasic.constructor | Boost-1.63.0/crc.hpp:630-644 | starts from the initial remainder |
| Crc.CrcBasic.GetInterimRemainder | Boost-1.63.0/crc.hpp:696-704 | the register's value with the unmasked bits removed |
| Crc.CrcBasic.Reset | Boost-1.63.0/crc.hpp:706-715 | replaces the remainder |
| Crc.CrcBasic.ProcessBit | Boost-1.63.0/crc.hpp:727-751 | one division step of the register |
| Crc.CrcBasic.ProcessBits | Boost-1.63.0/crc.hpp:752-770 | the lowest `bit_count` bits are divided in, highest first |
| Crc.CrcBasic.ProcessByte | Boost-1.63.0/crc.hpp:772-782 | eight bits in processing order, reflected if asked |
| Crc.CrcBasic.ProcessBlock | Boost-1.63.0/crc.hpp:783-813 | all bytes of the block in order |
| Crc.CrcBasic.GetChecksum | Boost-1.63.0/crc.hpp:814-823 | output reflection and final xor of the register, masked |
| Crc.CrcTable.Init | Boost-1.63.0/crc.hpp:488-537 | after any call every entry holds the remainder of its index byte, in reflected form if the table is reflected |
| Crc.CrcTable.MakeEntry | Boost-1.63.0/crc.hpp:505-532 | the entry of a dividend and the slot it belongs to |
| Crc.CrcTable.Divide | Boost-1.63.0/crc.hpp:507-528 | the remainder of one byte divided highest bit first from a zero register |
| Crc.AlignMsb | Boost-1.63.0/crc.hpp:539-561 | the highest eight bits of the register, padded with zeros below for registers narrower than a byte |
| Crc.IndexBits | Boost-1.63.0/crc.hpp:576-578 | the table index is the message byte added to the register's top bits in processing order, in both reflection modes |
| Crc.ShiftRegister | Boost-1.63.0/crc.hpp:580-582 | shifting the stored word, left or right, shifts the register it holds by a byte |
| Crc.TableStep | Boost-1.63.0/crc.hpp:962-964 | one lookup does the work of eight division steps |
| Crc.CrcOptimal.constructor | Boost-1.63.0/crc.hpp:832-843 | holds the initial remainder, reflected if needed, over a filled table |
| Crc.CrcOptimal.GetInterimRemainder | Boost-1.63.0/crc.hpp:905-916 | the register with reflection undone and unmasked bits removed |
| Crc.CrcOptimal.Reset | Boost-1.63.0/crc.hpp:918-929 | the register becomes the low bits of the new remainder |
| Crc.CrcOptimal.ProcessBlock | Boost-1.63.0/crc.hpp:944-966 | the register after the block is that of bitwise division of the block |
| Crc.CrcOptimal.GetChecksum | Boost-1.63.0/crc.hpp:984-995 | the same checksum function of the register as `crc_basic` has |
| CrcLaws.BitOrder | Boost-1.63.0/crc.hpp:772-813 | which bit of which byte is divided at each step: bytes in order, lowest bit first if input is reflected, highest first if not |
| CrcLaws.ReflectedInput | Boost-1.63.0/crc.hpp:772-782 | reflected input leaves the remainder that unreflected input leaves for bytes with their bits mirrored |
| CrcLaws.FlattenAppend | Boost-1.63.0/crc.hpp:783-813 | chunks make up the message in their order |
| CrcResults.OutputBit | Boost-1.63.0/crc.hpp:814-823 | each bit of the checksum: the register's bit, from the other end if output is reflected, added to the final xor value's |
| CrcResults.CompareForms | Boost-1.63.0/crc.hpp:727-823 | for all parameters, word widths and chunkings both computers return the checksum and remainder of the whole message |
| CrcResults.ComputeCrc | Boost-1.63.0/crc.hpp:1024-1040 | the one-call function returns the message's checksum |
| CrcResults.BurstDetection | Boost-1.63.0/crc.hpp:727-823 | all bursts of at most `Bits` bits change the checksum if and only if the polynomial's lowest bit is set |
| CrcResults.BlindSpot | Boost-1.63.0/crc.hpp:727-823 | otherwise every sufficiently long message has a partner with the same checksum that differs in its first `Bits` bits only |
| CrcResults.ReadyMadeTypes | Boost-1.63.0/crc.hpp:93-98 | which of the four ready-made types detect all bursts |
| CrcLaws.PolynomialOfCrc16 | Boost-1.63.0/crc.hpp:93 | the exponents of the polynomial of `crc_16_type` |
| CrcLaws.PolynomialOfCrcCcitt | Boost-1.63.0/crc.hpp:94 | the exponents of the polynomial of `crc_ccitt_type` |
| CrcLaws.PolynomialOfCrcXmodem | Boost-1.63.0/crc.hpp:95 | the exponents of the polynomial of `crc_xmodem_type` |
| CrcLaws.PolynomialOfCrc32 | Boost-1.63.0/crc.hpp:97-98 | the exponents of the polynomial of `crc_32_type`, those of section 8 of RFC 1952 |
| CrcLaws.ReadyMadeParameters | Boost-1.63.0/crc.hpp:93-98 | widths, start values, final xor values and reflection of the four types |
| CrcLaws.Residue | Boost-1.63.0/crc.hpp:814-823 | a message followed by its checksum, in the byte order that goes with the reflection, leaves a remainder that depends on the final xor value only |
| CrcResults.AugmentedCrc | Boost-1.63.0/crc.hpp:1045-1076 | computes the augmented division of the buffer bit for bit |
| CrcResults.SendAndCheck | Boost-1.63.0/crc.hpp:1045-1076 | what `augmented_crc` returns for message and check bytes is zero exactly when the bytes are, highest first, what `crc_basic` returns for the message; with zero bytes the two results are equal |
| CrcResults.AugmentedChecksOut | Boost-1.63.0/crc.hpp:1045-1076 | zero exactly when the appended bytes are the message's big-endian remainder; equal to the remainder when they are zero |
| NumberTheory.TruncDivMod | Boost-1.63.0/rational.hpp:429-432 | quotient and remainder recombine, the remainder is smaller than the divisor and has the dividend's sign |
| NumberTheory.Bezout | Boost-1.63.0/rational.hpp:305-309 | the gcd is an integer combination of its arguments |
| NumberTheory.CommonDivisorDividesGcd | Boost-1.63.0/rational.hpp:305-309 | every common divisor divides the gcd |
| NumberTheory.EuclidLemma | Boost-1.63.0/rational.hpp:284-299 | a divisor of a product that is coprime to one factor divides the other |
| NumberTheory.LcmDividesCommonMultiple | Boost-1.63.0/rational.hpp:683-684 | every common multiple is a multiple of the lcm |
| RationalTheory.LowestUnique | Boost-1.63.0/rational.hpp:523-526 | two normalized fractions have equal values exactly when their parts are equal |
| RationalTheory.SumIsLowest | Boost-1.63.0/rational.hpp:284-299 | dividing by gcd(numerator, g) alone brings the sum into lowest terms |
| RationalTheory.SumIsExact | Boost-1.63.0/rational.hpp:305-310 | the parts so obtained have the exact value of the sum |
| RationalTheory.ProductIsCoprime | Boost-1.63.0/rational.hpp:340-343 | cross-cancelled products are in lowest terms |
| BoostRational.Rational.constructor | Boost-1.63.0/rational.hpp:153 | an integer as a normalized fraction |
| BoostRational.Rational.Normalize | Boost-1.63.0/rational.hpp:545-568 | over unbounded integers: fails exactly for a zero denominator; otherwise keeps the value and reaches lowest terms |
| RationalBounded.Normalize | Boost-1.63.0/rational.hpp:545-578 | in a wrapping two's-complement type: exactly when each exception is raised; otherwise lowest terms in range, and exactly when the value is kept and when its sign is lost |
| BoostRational.Rational.Assign | Boost-1.63.0/rational.hpp:258-261 | the value n/d in lowest terms, or an error that leaves the object alone |
| BoostRational.Rational.AssignInt | Boost-1.63.0/rational.hpp:168 | an integer value |
| BoostRational.Rational.AddAssign | Boost-1.63.0/rational.hpp:279-312 | exact sum in lowest terms, also when the operand is the object itself |
| BoostRational.Rational.SubAssign | Boost-1.63.0/rational.hpp:314-331 | exact difference in lowest terms, also aliased |
| BoostRational.Rational.MulAssign | Boost-1.63.0/rational.hpp:333-346 | exact product in lowest terms, also aliased |
| BoostRational.Rational.DivAssign | Boost-1.63.0/rational.hpp:348-374 | error exactly for a zero divisor, nothing changed; otherwise the exact quotient in lowest terms |
| BoostRational.Rational.AddInt | Boost-1.63.0/rational.hpp:185 | exact sum with an integer |
| BoostRational.Rational.SubInt | Boost-1.63.0/rational.hpp:186 | exact difference with an integer |
| BoostRational.Rational.MulInt | Boost-1.63.0/rational.hpp:379-387 | exact product with an integer, zero included |
| BoostRational.Rational.DivInt | Boost-1.63.0/rational.hpp:391-410 | error exactly for zero; otherwise the exact quotient with positive denominator |
| BoostRational.Rational.Increment | Boost-1.63.0/rational.hpp:191 | one more |
| BoostRational.Rational.Decrement | Boost-1.63.0/rational.hpp:192 | one less |
| BoostRational.Rational.Negated | Boost-1.63.0/rational.hpp:272-275 | the negated value, normalized |
| BoostRational.Rational.Absolute | Boost-1.63.0/rational.hpp:667-671 | never negative, and the value or its negation |
| BoostRational.Rational.Equals | Boost-1.63.0/rational.hpp:523-526 | true exactly when the values are equal |
| BoostRational.Rational.EqualsInt | Boost-1.63.0/rational.hpp:530-533 | true exactly when the value is that integer |
| BoostRational.Rational.LessThan | Boost-1.63.0/rational.hpp:414-495 | true exactly when this value is less, within the range of any two's-complement type that holds both fractions |
| BoostRational.LessByContinuedFractions | Boost-1.63.0/rational.hpp:427-494 | terminates with the comparison of cross products; every intermediate result fits the machine range |
| BoostRational.FloorDivMod | Boost-1.63.0/rational.hpp:434-441 | the correcting loop leaves the floor quotient and a non-negative remainder, in range |
| BoostRational.EqualQuotients | Boost-1.63.0/rational.hpp:446-470 | with equal terms the comparison passes, reversed, to the reciprocals of the fractional parts |
| BoostRational.Rational.LessThanInt | Boost-1.63.0/rational.hpp:498-513 | true exactly when the value is below the integer |
| BoostRational.Rational.GreaterThanInt | Boost-1.63.0/rational.hpp:516-519 | true exactly when the value is above the integer |
| BoostRational.InnerGcdIsGcd | Boost-1.63.0/rational.hpp:231-238 | the recursive gcd agrees with the gcd up to sign, for arguments of any sign |
| BoostRational.NormalizedTestAgrees | Boost-1.63.0/rational.hpp:247-253 | `is_normalized` accepts exactly the fractions that pass `test_invariant` |
| RationalResults.Execute | Boost-1.63.0/rational.hpp:258-410 | any sequence of operations gives the exact value in lowest terms, and an error exactly where exact arithmetic has one |
| RationalResults.Compare | Boost-1.63.0/rational.hpp:414-526 | exactly one of less, equal and greater holds, and it is the right one |
| RationalResults.MultipleParts | Boost-1.63.0/rational.hpp:675-701 | one normalized fraction is an integer multiple of another exactly when numerators and denominators divide crosswise |
| RationalResults.RationalGcdIsGreatest | Boost-1.63.0/rational.hpp:675-687 | the gcd divides both arguments and every common divisor divides it; its parts are already in lowest terms |
| RationalResults.RationalLcmIsLeast | Boost-1.63.0/rational.hpp:689-701 | the lcm is a multiple of both arguments and every common multiple is one of it; its parts are already in lowest terms |
| RationalResults.GcdEvaluate | Boost-1.63.0/rational.hpp:680-686 | the constructor stores the pair unchanged |
| RationalResults.LcmEvaluate | Boost-1.63.0/rational.hpp:694-700 | the constructor stores the pair unchanged |
| LuaChunk.SignedRoundTrip | Lua-5.3.3/ldump.c:58-70 | two's-complement integers of any byte length decode to themselves |
| LuaDump.DumpState.DumpBlock | Lua-5.3.3/ldump.c:40-46 | the block goes to the writer while the status is zero; afterwards the writer is left alone |
| LuaDump.DumpState.DumpString | Lua-5.3.3/ldump.c:73-87 | the string's encoding is requested, long sizes and the null string included |
| LuaDump.DumpState.DumpCode | Lua-5.3.3/ldump.c:90-93 | count and instructions are requested |
| LuaDump.DumpState.DumpConstants | Lua-5.3.3/ldump.c:98-125 | count and tagged constants are requested in order |
| LuaDump.DumpState.DumpUpvalues | Lua-5.3.3/ldump.c:137-144 | count and upvalue descriptions are requested in order |
| LuaDump.DumpState.DumpProtos | Lua-5.3.3/ldump.c:128-134 | count and nested functions are requested in order, with this function's source |
| LuaDump.DumpState.DumpDebug | Lua-5.3.3/ldump.c:147-163 | line numbers, local variables and upvalue names, or three zero counts when stripping |
| LuaDump.DumpState.DumpFunction | Lua-5.3.3/ldump.c:166-181 | the function's whole encoding is requested, the source omitted when stripping or when shared with the parent |
| LuaDump.DumpState.DumpHeader | Lua-5.3.3/ldump.c:184-196 | exactly the header the reader checks for |
| LuaDump.Dump | Lua-5.3.3/ldump.c:202-214 | the writer receives a prefix of the chunk, on status zero all of it, which then has the format described byte by byte; another status is the writer's answer to the last block; the status is zero if the writer accepts every block that is not empty |
| LuaFormat.EncodedInt | Lua-5.3.3/ldump.c:58-60 | four bytes, lowest first, in two's complement |
| LuaFormat.EncodedString | Lua-5.3.3/ldump.c:73-87 | a zero byte for null; size plus one in one byte below 255, else 255 and eight bytes; then the characters |
| LuaFormat.EncodedConstant | Lua-5.3.3/ldump.c:98-125 | tags 0, 1, 3, 19, and 4 or 20 for strings up to or above 40 characters; booleans are 0 or 1 |
| LuaFormat.EncodedSource | Lua-5.3.3/ldump.c:166-170 | the first byte is zero if and only if stripping, no source, or the source string of the enclosing function |
| LuaFormat.EncodedFunction | Lua-5.3.3/ldump.c:166-181 | the nine sections in order, for a function and all functions nested in it |
| LuaFormat.EncodedChunk | Lua-5.3.3/ldump.c:184-214 | the 33 header bytes, the upvalue count, and the main function |
| LuaRoundTrip.StringRoundTrip | Lua-5.3.3/lundump.c:88-104 | every string, null and long ones included, is read back and the rest of the input left |
| LuaRoundTrip.ConstantRoundTrip | Lua-5.3.3/lundump.c:118-149 | every constant is read back |
| LuaRoundTrip.VectorRoundTrip | Lua-5.3.3/lundump.c:107-112 | a counted vector is read back if its items are |
| LuaRoundTrip.DebugRoundTrip | Lua-5.3.3/lundump.c:180-199 | debug data are read back, or come back empty when stripped |
| LuaRoundTrip.FunctionRoundTrip | Lua-5.3.3/lundump.c:202-216 | a nested function is read back with inherited sources rebuilt, whatever bytes follow |
| LuaRoundTrip.ProtosRoundTrip | Lua-5.3.3/lundump.c:152-163 | so are the functions inside it |
| LuaRoundTrip.ChunkRoundTrip | Lua-5.3.3/ldump.c:166-214 | an unstripped dump followed by any bytes loads back as the same tree if and only if no function without a source lies inside one with a source |
| LuaRoundTrip.StrippedChunkRoundTrip | Lua-5.3.3/ldump.c:147-214 | a stripped dump loads back as the same tree with only debug data erased |
| LuaRoundTrip.DumpsAreDistinct | Lua-5.3.3/ldump.c:202-214 | dumps of different trees differ, and none is a proper prefix of another |
| LuaRoundTrip.LostSource | Lua-5.3.3/ldump.c:166-170 | a concrete tree that does not load back |
| LuaReload.LoadedFunction | Lua-5.3.3/lundump.c:202-216 | whatever bytes are accepted, the loaded tree is within the limits of the C types and has no function without a source inside one with a source |
| LuaReload.LoadedProtosOf | Lua-5.3.3/lundump.c:152-163 | so have all functions nested in it |
| LuaReload.LoadableTrees | Lua-5.3.3/lundump.c:202-216 | the trees that some chunk loads as are exactly the trees with those two properties |
| LuaReload.ReloadIsStable | Lua-5.3.3/ldump.c:166-214 | dumping a loaded tree, however its strings lie in memory, and loading the dump gives the same tree |
| LuaReload.CombinedRoundTrip | Lua-5.3.3/luac.c:139-158 | combined chunks load back from their dump if and only if every part has a source; what combining changes in the main function and in the parts |
| LuaReload.DumpAndLoad | Lua-5.3.3/ldump.c:202-214 | if the writer reports no error, what it received loads as the tree exactly when no source is lost, and stripped as the tree without debug data |
| LuaTruncation.ChunkExtends | Lua-5.3.3/lundump.c:51-55 | the reader looks at no byte beyond those it uses: with more input behind it, the same is loaded and the rest left |
| LuaTruncation.TruncatedIsRefused | Lua-5.3.3/lundump.c:51-55 | a dump cut short at any point is refused |
| LuaTruncation.HeaderIsChecked | Lua-5.3.3/lundump.c:236-270 | nothing is loaded unless the first 33 bytes are the expected ones |
| LuaRef.RawLen | Lua-5.3.3/ltable.c:655-671 | finds a border for every split of the table into an array part of any allowed size and a hash part, and within the table's limits |
| LuaRef.UnboundSearch | Lua-5.3.3/ltable.c:627-648 | from any start an array part allows, doubling, bisection and the linear fallback end at a border |
| LuaRef.OnlyBorder | Lua-5.3.3/lauxlib.c:609-610 | with an empty free list slots 1..n are all full and n is the only border |
| LuaRef.TakeFirst | Lua-5.3.3/lauxlib.c:605-611 | taking the head of the free list keeps slots, list and counts consistent |
| LuaRef.PutBack | Lua-5.3.3/lauxlib.c:617-625 | so does putting a live slot at its head |
| LuaRef.RefTable.constructor | Lua-5.3.3/lauxlib.c:585-586 | a table with its owner's slots and an empty free list is consistent |
| LuaRef.RefTable.Ref | Lua-5.3.3/lauxlib.c:596-614 | a reference not live before now maps to the object; a new slot is used exactly when no slot is free, else the slot freed last; nil gets the reference -1 and changes nothing |
| LuaRef.RefTable.Unref | Lua-5.3.3/lauxlib.c:617-625 | only the freed reference stops being live and is the next to be used again; negative references change nothing |
| LuaRef.Replay | Lua-5.3.3/lauxlib.c:596-625 | over every legal run live references are distinct and resolve to their objects, the owner's slots survive, and the highest slot ever used is the largest number of references live at once |
| LuaRef.LiveMeans | Lua-5.3.3/lauxlib.c:596-625 | a reference is live exactly if its object is not nil and no later operation released it |
| LuaRef.PeakIsMaximum | Lua-5.3.3/lauxlib.c:596-625 | the bound on the slots is the largest number of references live after some part of the run |
| CharSeparator.Delimiters.FieldEnd | Boost-1.63.0/token_functions.hpp:487-521 | the end of the maximal run without delimiters |
| CharSeparator.Separator.ReadField | Boost-1.63.0/token_functions.hpp:278-307 | both ways of building a token read the same run |
| CharSeparator.Separator.NextNonEmpty | Boost-1.63.0/token_functions.hpp:469-489 | the call takes the first of the remaining tokens and leaves the others |
| CharSeparator.Separator.NextKeepingEmpty | Boost-1.63.0/token_functions.hpp:490-526 | likewise with empty tokens kept, though some calls consume nothing |
| CharSeparator.Separator.Next | Boost-1.63.0/token_functions.hpp:457-527 | a token exactly while tokens remain, and a measure of input and flag that falls with each |
| CharSeparator.Tokenize | Boost-1.63.0/token_iterator.hpp:50-72 | the whole run yields all tokens in order, except the empty first one if the function object comes from a finished run; an empty input yields none; the state the function object is left in |
| CharSeparator.SplitIsCut | Boost-1.63.0/token_functions.hpp:457-527 | those tokens are the fields of a cut of the input at every delimiter, with the kept delimiters between them |
| CharSeparator.CutUnique | Boost-1.63.0/token_functions.hpp:457-527 | an input has only one such cut |
| CharSeparator.DropIsNonEmptySplit | Boost-1.63.0/token_functions.hpp:469-489 | drop mode yields the non-empty tokens of the same cut |
| CharSeparator.SplitLaws | Boost-1.63.0/token_functions.hpp:490-526 | keep mode: exactly the delimiters dropped and not kept are missing from the tokens; every other token is free of delimiters; each kept delimiter is a token as often as it occurs; how many tokens there are |
| CharSeparator.DropRestLaws | Boost-1.63.0/token_functions.hpp:469-489 | drop mode: exactly the dropped delimiters are missing; no token is empty; each delimiter kept and not dropped is a token as often as it occurs |
| CharSeparator.Fields | Boost-1.63.0/token_iterator.hpp:50-72 | both modes, both ways of building tokens and any state of the function object, in terms of the cut by the same delimiters (also in drop mode if the sets are disjoint) and of what becomes of each character |
| EscapedList.Separator.DoEscape | Boost-1.63.0/token_functions.hpp:126-149 | an escaped 'n' adds a newline, an escaped special character itself; any other character, or none, is the error that goes with it |
| EscapedList.Separator.Next | Boost-1.63.0/token_functions.hpp:161-198 | one field, quotes and escapes resolved, or its error; a pending last empty field is delivered once |
| EscapedList.Tokenize | Boost-1.63.0/token_iterator.hpp:50-72 | the whole run delivers every field or the first error |
| EscapedList.ReadWritten | Boost-1.63.0/token_functions.hpp:161-198 | a field written escaped or quoted is read as itself, up to an escaped 'n', whatever follows |
| EscapedList.ListRoundTrip | Boost-1.63.0/token_functions.hpp:126-198 | a written list reads back unchanged if and only if it is not one unquoted empty field, no separator in it is an escape character, and it holds no 'n' that needed an escape; only characters used in the writing must be in the format |
| EscapedList.EscapingSeparator | Boost-1.63.0/token_functions.hpp:176-178 | two or more fields joined by an escape character never read back |
| EscapedList.EscapedRoundTrip | Boost-1.63.0/token_functions.hpp:126-198 | without quotes, in any format in which 'n' is not special, every list but the single empty field reads back |
| EscapedList.ReadBack | Boost-1.63.0/token_iterator.hpp:50-72 | the same equivalence for what a run of the tokenizer returns |
| EscapedList.OpenQuote | Boost-1.63.0/token_functions.hpp:175-197 | a quote never closed extends to the end without error |
| EscapedList.EscapeAfterList | Boost-1.63.0/token_functions.hpp:126-149 | after any written list: a lone escape and an unknown escape are their errors, an escaped 'n' or special character extends the last field |
| EscapedList.RunWithEscape | Boost-1.63.0/token_iterator.hpp:50-72 | a run of the tokenizer ends with those two errors |
| LuaFindField.Lua.Next | Lua-5.3.3/lauxlib.c:50 | steps through a table's pairs in order on the stack |
| LuaFindField.Lua.FindField | Lua-5.3.3/lauxlib.c:46-67 | leaves exactly the found name on an otherwise unchanged stack, or nothing |
| LuaFindField.FindSound | Lua-5.3.3/lauxlib.c:46-67 | a found path has between one and `level` string keys and leads to the object |
| LuaFindField.FindComplete | Lua-5.3.3/lauxlib.c:46-67 | if nothing is found, no path of at most `level` keys exists |
| LuaFindField.FindEarliest | Lua-5.3.3/lauxlib.c:46-67 | the path found goes through the first pair of the table from which any path leads on, directly if it can |
| LuaFindField.DottedJoin | Lua-5.3.3/lauxlib.c:56-61 | the keys of a path are joined by single dots |
| LuaFindField.Search | Lua-5.3.3/lauxlib.c:46-67 | a name is found if and only if such a path exists, and it is the dotted form of one |
| LuaBuffer.GrownSize | Lua-5.3.3/lauxlib.c:503-509 | exactly when a request is accepted under wrapping arithmetic; the size is then doubled, or just enough where that is too little or wraps, and truly suffices |
| LuaBuffer.RefusedThoughRepresentable | Lua-5.3.3/lauxlib.c:505-509 | a concrete request that fits the type and is refused |
| LuaBuffer.Buffer.constructor | Lua-5.3.3/lauxlib.c:565-570 | an empty buffer in its initial storage |
| LuaBuffer.Buffer.PrepBuffSize | Lua-5.3.3/lauxlib.c:501-521 | on success size is at least n + sz in true arithmetic, contents and stack below are kept, the new size and when it is refused, and a box appears exactly when growth first happens |
| LuaBuffer.Buffer.AddLString | Lua-5.3.3/lauxlib.c:524-530 | appends the characters; cannot fail within half the address space |
| LuaBuffer.Buffer.AddChar | Lua-5.3.3/lauxlib.h:154-156 | appends one character |
| LuaBuffer.Buffer.AddValue | Lua-5.3.3/lauxlib.c:554-562 | moves the string on top into the buffer whether the box was there, appears meanwhile, or never exists |
| LuaBuffer.Buffer.PushResult | Lua-5.3.3/lauxlib.c:538-545 | the contents replace the box on the stack |
| LuaBuffer.Build | Lua-5.3.3/lauxlib.c:501-562 | any sequence of additions pushes the concatenation of the pieces over the original stack |
| LuaBuffer.ConcatenationAppend | Lua-5.3.3/lauxlib.c:501-562 | the pieces are joined in their order |
| LuaTraceback.LastLevel | Lua-5.3.3/lauxlib.c:111-123 | the last existing level, or zero |
| LuaTraceback.Traceback | Lua-5.3.3/lauxlib.c:126-154 | up to 22 levels all of them, else 22 lines: the first ten levels, an ellipsis and the last eleven; nothing from a level that does not exist |
| LuaTraceback.ReportInOrder | Lua-5.3.3/lauxlib.c:126-154 | reported levels exist, increase strictly and include both ends |
| LuaRotate.Reverse | Lua-5.3.3/lapi.c:202-209 | the segment in reverse order, everything else untouched |
| LuaRotate.ThreeReversals | Lua-5.3.3/lapi.c:212-228 | reversing prefix, suffix and whole is a rotation |
| LuaRotate.Rotate | Lua-5.3.3/lapi.c:216-228 | rotates the segment by any n up to its length in either direction, nothing outside changes |
| LuaRotate.RotatedMoves | Lua-5.3.3/lapi.c:212-228 | the element at offset k ends at (k + n) mod length |
| LuaRotate.RotateAndBack | Lua-5.3.3/lapi.c:216-228 | rotating by n and then by -n restores the stack |
| LuaToNumber.ReadDigits | Lua-5.3.3/lbaselib.c:56-62 | the run's value modulo 2^64, or rejection exactly when some digit reaches the base |
| LuaToNumber.Str2Int | Lua-5.3.3/lbaselib.c:48-66 | where parsing stops and the signed value modulo 2^64, for every input |
| LuaToNumber.ToNumber | Lua-5.3.3/lbaselib.c:84-95 | a bad base exactly outside 2..36; else a number exactly if the text is blanks, a sign or none, digits below the base and blanks, and then its value wrapped to 64 bits |
| LuaToNumber.ConvertParts | Lua-5.3.3/lbaselib.c:84-95 | any text in its parts is no number if and only if the run of letters and digits is empty, holds a digit not below the base, or is followed by anything but blanks |
| LuaToNumber.PartsExist | Lua-5.3.3/lbaselib.c:48-66 | every text has such parts |
| LuaToNumber.SkipSpaces | Lua-5.3.3/lbaselib.c:51 | passes over exactly the six blank characters |
| LuaToNumber.DigitValues | Lua-5.3.3/lbaselib.c:57-58 | the digit values by character code |
| LuaToNumber.NumeralAppend | Lua-5.3.3/lbaselib.c:56-62 | positional notation, the first digit counting most |
| LuaToNumber.NumeralOfDigits | Lua-5.3.3/lbaselib.c:56-62 | the digit string of a number stands for that number |
| LuaToNumber.ReadsBack | Lua-5.3.3/lbaselib.c:48-66 | every 64-bit integer in every base and either case, signed and surrounded by spaces, is read back in full |

## Left out

- Boost.CRC: the accessor functions, and the once-only flag of the lookup table as process-wide state (the table is an object shared by its users).
- Boost.CRC: a bit count above eight in `process_bits` and a width below eight in `augmented_crc`, where the source shifts by a negative amount.
- Boost.Rational: stream input and output, `rational_cast`, the converting constructor, and user-defined integer types.
- Boost.Rational: overflow of the arithmetic operators in bounded types; only the order and normalization are modelled in a machine range.
- BoostRational.Rational.Normalize: over unbounded integers the second exception cannot occur; `RationalBounded.Normalize` models it.
- Boost.Tokenizer: `offset_separator` and the deprecated `char_delimiters_separator`, and locale classification (the delimiter tests are parameters).
- Boost.Tokenizer: the default constructor of `char_separator` leaves its output flag unset; only drop mode uses that constructor, and drop mode ignores the flag.
- LuaDump.Dump: the writer is a function of what it has received and the new block, and a block counts as received even if the writer reports an error for it.
- LuaReload.LoadedFunction: two inputs no dump contains, on which `lundump.c` reads or writes through an invalid pointer, are refused: a null string constant, and more upvalue names than upvalues. Memory does not run out, except on a negative count.
- LuaRef.RawLen: the result is given before its conversion to `int`, which turns 2^31 into a negative number.
- LuaRef.Replay: indices do not overflow `int`, and the table has no integer keys besides its owner's leading slots and the references.
- LuaFindField.Search: the prefix rule of `pushglobalfuncname` and the call that obtains the function are not modelled.
- LuaBuffer.Build: the finalizer of the box and the two size-first variants of the interface.
- LuaTraceback.Traceback: only which levels are reported, not the text of each line.
- LuaToNumber.ToNumber: the branch without a base, and locales other than "C".
- Lua: the collector, coroutines, calls and the rest of the C interface.
- The other libraries of the collection (Redis, Libevent, Memcached, SGI STL, Skynet) and the remaining Boost headers.
