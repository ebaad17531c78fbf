# Verified models of rssdisk's algorithmic cores

rssdisk is a C++ storage server with its client library. Below its sockets and threads lie
several self-contained algorithms. This project models them in Dafny and proves what they
are for. Code that changes things in place is modelled by classes and methods with loops, and
each such method is proved against a function on values; the theorems are about those functions
and about whole runs.

| files | what they model |
|---|---|
| `Arithmetic`, `Digits`, `DigitLoops`, `LongDivision`, `BigNumber` | multi-precision arithmetic (`DH_BIG::DH`): digit loops, long division, the operators |
| `Numerals`, `ModularPower`, `Newton`, `NumberText`, `NumberPacking`, `KeyAgreement` | modular power, square root, reading and printing numbers, the pair coding of numbers on the wire, Diffie-Hellman at both ends |
| `Json`, `JsonReader`, `JsonRoundTrip`, `JsonCode` | jsoncpp's `FastWriter` and `Reader` |
| `Bitbase`, `Compressor`, `CompressorLayout`, `CompressorCode` | the dictionary compressor for tables of strings |
| `Bytes`, `MachineWords`, `Sequences`, `Wrappers`, `Framing`, `Splitting`, `WriteQueue` | delimiter framing (three parsers) and the server's write path |
| `Calendar`, `Md5`, `Gost` | date arithmetic, MD5 streaming and padding, GOST 28147-89 counter mode |
| `ClientPool`, `ThreadPool`, `MapTime` | the client pool's slots, the thread pool's counter and ranges, the expiring map |

Integers are unbounded unless a width is written out: 32-bit digits and 64-bit intermediates in the
arithmetic, 32-bit words in MD5 and GOST, 64-bit integers in JSON, the length fields of the compressor.
A character of a `string` stands for a byte.

Places where the code does not do what its callers would expect, and when:

- Dividing by a number of two or more digits whose top digit is 2^32-1 wraps a 32-bit sum to zero and divides
  by it. `ScaleTraps` and `DivisionTraps` say exactly when, and the operations return that outcome. `pow` fails,
  for such a modulus of three or more digits, exactly when the power exceeds the modulus and repeated squaring of
  the base does not come to the modulus (`PowTrapsExactly`). The least argument on which `sqrt` fails is
  2*(2^32-1)*2^32 - 1 (`SmallNeverTraps`, `LeastTraps`).
- `pow` with modulus one and exponent zero gives one, not zero, so the two ends of the key agreement can differ
  for modulus one (`KeysCommute`, `PowResultIsRemainder`).
- The client's opening message has the size of p as four raw bytes in front of decimal text, and all of it goes
  through `compress_number`. That coding is undone exactly for texts without a byte in 65..90 or 97..99
  (`PackRoundTrip`), so the server reads what the client sent exactly when the size of p has no such byte and A has
  three digits; with such a byte it always takes a shorter text for p (`HelloArrives`, and `SeventySevenDigits` for
  p of 77 digits). `Exchange` is established exactly under these conditions and when no power traps.
- The JSON reader accepts an object that ends in a comma exactly when its last name is empty (`TrailingComma`).
- The recursive parser gives up on deep input. It is the matcher exactly when it does not give up
  (`LimitedIsRun`); 20000 bytes are always safe, whatever the state and the delimiter, and 20001 are not
  (`ParsersAgree`, `LongLoses`).
- The server's incremental matcher is leftmost splitting exactly for self-aligned delimiters, and both receivers
  deliver every clean payload exactly under the conditions in `ServerDelivers` and `ClientDelivers`.
- Clearing or stopping the thread pool with work left can leave its counter above zero for good. Waiting can still
  end exactly when nothing was dropped and the pool runs or its workers already have all there is (`WaitCanEnd`).
- GOST's four lookups are the standard's substitution for every word exactly when no entry reaches into its
  neighbour's lane (`LookupIsStandard`). The rows that `prepare` installs are key bytes: nibbles exactly when the
  bytes used are (`PreparedNibbles`), and never for short keys (`ShortKeysGiveNoNibbles`). Deciphering still undoes
  enciphering. Of a long key only the first 121 bytes matter (`LongKeysAgree`).
- The loop test of MD5's `update` can wrap for inputs within 64 bytes of 2^32 (`Overruns`, `LongestOverruns`).
- Adding a big number to itself reads freed digits exactly when its digit vector has to grow (`DH.PlusSelf`);
  for a copied number, exactly when its length is 6 modulo 8 (`DoubleCopy`).
- The ranges of `in_parallel` miss the last indices exactly when `start + count_per_thread` leaves 32 bits before the
  last thread, signed overflow wrapping (`AllReached`); it takes more than 46341 threads (`FewThreads`, `ManyThreads`).

## Model

| member | source | states |
|---|---|---|
| `DigitLoops.MulSingle` | libs/DH/dh.cpp:118-128 | a digit string times one digit, in place: low part and overflowing digit together are the exact product |
| `DigitLoops.MulStrings` | libs/DH/dh.cpp:134-150 | schoolbook multiplication writes exactly the product of the two strings |
| `DigitLoops.Add` | libs/DH/dh.cpp:153-177 | sum of digit strings with carry, also when the result overwrites an operand |
| `DigitLoops.Sub` | libs/DH/dh.cpp:749-772 | difference of digit strings for a larger first operand; no borrow is left |
| `DigitLoops.Compare` | libs/DH/dh.cpp:485-495 | the comparison of equally long strings is the sign of the difference of their values |
| `DigitLoops.DivSingle` | libs/DH/dh.cpp:456-467 | division by one digit: quotient in place, remainder returned, dividend = quotient * divisor + remainder |
| `LongDivision.GuessQ` | libs/DH/dh.cpp:567-583 | the trial digit is the true quotient digit or one more, and for a scaled divisor at most two decrements are made |
| `LongDivision.MultiplyAndSubtract` | libs/DH/dh.cpp:585-604 | the window loses q times the divisor modulo its width; the result is 0 exactly when q was too big |
| `LongDivision.AddBack` | libs/DH/dh.cpp:606-617 | adds the divisor back to the window, losing only the carry |
| `LongDivision.DivideStep` | libs/DH/dh.cpp:469-483 | one step of guess, subtraction and at most one add-back leaves the exact quotient digit, a remainder below the divisor and a zero top digit |
| `LongDivision.Divide` | libs/DH/dh.cpp:469-483 | the whole division: dividend = quotient * divisor + remainder, remainder below the divisor |
| `Arithmetic.TruncatedDivision` | libs/DH/dh.cpp:265-406 | the C quotient and remainder the operators are specified by satisfy x = q*y + r with \|r\| < \|y\| and the sign of x |
| `BigNumber.TrapsByValue` | libs/DH/dh.cpp:315 | the wrapped scaling sum, seen on digits, is a condition on the two numbers |
| `BigNumber.ScaleFits` | libs/DH/dh.cpp:315-320 | the scale factor makes the divisor's top digit at least half the base without lengthening it |
| `BigNumber.Unscale` | libs/DH/dh.cpp:315-327 | scaling both operands keeps the quotient and scales the remainder |
| `BigNumber.ToUlong` | libs/DH/dh.cpp:426-435 | the value modulo 2^64, which is the value of at most two digits |
| `BigNumber.DigitSet` | libs/DH/dh.cpp:437-454 | the digits of a 64-bit value, without leading zeros |
| `BigNumber.RemScaled` | libs/DH/dh.cpp:303-328 | remainder by scaling, long division and unscaling; traps exactly for the largest top digit |
| `BigNumber.QuoScaled` | libs/DH/dh.cpp:379-400 | quotient by scaling and long division; traps exactly for the largest top digit |
| `BigNumber.DH.Adjust` | libs/DH/dh.cpp:210-222 | drops leading zeros, keeps the value, zero becomes positive |
| `BigNumber.DH.Resize` | libs/DH/dh.cpp:179-194 | makes room without changing the number |
| `BigNumber.DH.UCompare` | libs/DH/dh.cpp:416-424 | compares magnitudes |
| `BigNumber.DH.Compare` | libs/DH/dh.cpp:690-698 | compares signed values |
| `BigNumber.DH.Mod` | libs/DH/dh.cpp:265-333 | `%=`: the truncated remainder for all signs and paths, without leading zeros; exact conditions for the trap and for division by zero; 0 % 0 is 0 |
| `BigNumber.DH.Div` | libs/DH/dh.cpp:341-406 | `/=`: the truncated quotient for all signs and paths, without leading zeros; exact conditions for the trap and for division by zero; 0 / 0 is 1 |
| `BigNumber.DH.DivUlong` | libs/DH/dh.cpp:408-414 | `/=` by any 64-bit number: the truncated quotient, with the exact conditions for the trap and for division by zero |
| `BigNumber.DH.MulDigits` | libs/DH/dh.cpp:497-565 | signed multiplication through the zero, one-digit and general paths |
| `BigNumber.DH.Mul` | libs/DH/dh.cpp:335-339 | `*=`, also of a number by itself, gives the product |
| `BigNumber.DH.AddDigits` | libs/DH/dh.cpp:700-747 | signed addition through the equal-sign and the four mixed-sign cases |
| `BigNumber.DH.Plus` | libs/DH/dh.cpp:774-778 | `+=` gives the sum |
| `BigNumber.DH.PlusUlong` | libs/DH/dh.cpp:681-688 | `+=` of a 64-bit number gives the sum |
| `BigNumber.DH.PlusSelf` | libs/DH/dh.cpp:700-747 | `+=` of a number to itself doubles it, exactly when its digit vector need not grow |
| `BigNumber.FullVector` | libs/DH/dh.cpp:43-60 | the vector that `adjust_size` chooses for n digits is full if and only if n is 6 modulo 8 |
| `BigNumber.DoubleCopy` | libs/DH/dh.cpp:700-747 | copying a number and adding the copy to itself doubles it if and only if its length is not 6 modulo 8 |
| `ModularPower.PowStep` | libs/DH/dh.cpp:232-244 | one pass of square-and-multiply keeps r * a^b modulo m |
| `ModularPower.PowResultIsRemainder` | libs/DH/dh.cpp:224-245 | the result is x^n mod m if and only if not (\|m\| = 1 and n = 0) |
| `ModularPower.SafeModulus` | libs/DH/dh.cpp:224-245 | a modulus of one digit, or whose top digit is not 2^32-1, never traps |
| `ModularPower.TinyBaseNeverTraps` | libs/DH/dh.cpp:224-245 | bases zero and one never trap |
| `ModularPower.PowTrapsExactly` | libs/DH/dh.cpp:224-245 | for a modulus of three or more digits with the largest top digit `pow` fails if and only if x^n, or x itself for n = 0, exceeds the modulus and the modulus is none of x, x^2, x^4, x^8, ... |
| `ModularPower.PowCanTrap` | libs/DH/dh.cpp:224-245 | an input on which `pow` fails |
| `ModularPower.Pow` | libs/DH/dh.cpp:224-245 | terminates with exactly that result for every x, y and m; fails exactly when a reduction traps; modulus zero gives zero |
| `Newton.NewtonStep` | libs/DH/dh.cpp:666-679 | an iterate never falls below the root and falls strictly while above it |
| `Newton.RootUnique` | libs/DH/dh.cpp:666-679 | the integer root that the result is claimed to be is the only one |
| `Newton.SmallNeverTraps` | libs/DH/dh.cpp:666-679 | no argument below 2*(2^32-1)*2^32 - 1 makes the iteration trap |
| `Newton.LeastTraps` | libs/DH/dh.cpp:666-679 | that argument does, at the first division: the bound is sharp |
| `Newton.Sqrt` | libs/DH/dh.cpp:666-679 | for x >= 0 the iteration terminates with r*r <= x < (r+1)*(r+1), unless a division traps, and exactly then it fails |
| `Numerals.NatTextMeans` | libs/DH/dh.cpp:627-664 | in bases 2..36 the text has no leading zero and its digits mean the number |
| `Numerals.TextRoundTrip` | libs/DH/dh.cpp:64-114 | scanning the printed text of any number in any base 2..36 gives it back, sign included |
| `NumberText.ScanOn` | libs/DH/dh.cpp:64-105 | reads the longest run of digits by Horner's rule and stops at the first character that is none |
| `NumberText.Scan` | libs/DH/dh.cpp:107-114 | sign and digits; complete exactly when everything after the sign is a digit of the base |
| `NumberText.TextFits` | libs/DH/dh.cpp:619-625 | the digit estimate is enough for every number and every base from 2 |
| `NumberText.DigitCount` | libs/DH/dh.cpp:619-625 | `digits`: the estimate covers the printed text without its sign |
| `NumberText.AsString` | libs/DH/dh.cpp:627-664 | writes the exact text right-aligned with a terminator, or reports that it does not fit, exactly by its length |
| `NumberText.GetString` | libs/DH/dh.h:59-72 | a buffer of `digits` plus two never runs out; the text is complete in bases up to 36 and otherwise cut at a digit that is the terminator |
| `KeyAgreement.KeysCommute` | libs/network/tcp_client.cpp:478-482 | (g^a)^b and (g^b)^a agree as `pow` computes them, if and only if not (\|p\| = 1 and exactly one exponent is zero) |
| `KeyAgreement.KeyIsPower` | libs/network/epoll_v2.cpp:1205-1211 | for \|p\| > 1 the key is g^(a*b) mod p |
| `NumberPacking.CompressNumber` | libs/basefunc_std.cpp:843-863 | the loop over pairs gives the packed text, an odd last byte kept |
| `NumberPacking.UncompressNumber` | libs/basefunc_std.cpp:825-838 | the loop over bytes gives the unpacked text |
| `NumberPacking.StoiPair` | libs/basefunc_std.h:604-612 | two bytes read as a number of two places only if both are decimal digits |
| `NumberPacking.PackedPair` | libs/basefunc_std.cpp:843-863 | two bytes become one if and only if they are the decimal code of a capital letter or of a, b or c |
| `NumberPacking.UnpackPack` | libs/basefunc_std.cpp:825-863 | unpacking a packed text gives what unpacking the text itself gives |
| `NumberPacking.PackRoundTrip` | libs/basefunc_std.cpp:825-863 | unpacking undoes packing if and only if no byte of the text is in 65..90 or 97..99 |
| `NumberPacking.PrefixRoundTrip` | libs/network/tcp_client.cpp:102-105 | in front of decimal digits, bytes survive if and only if none of them is in 65..90 or 97..99 |
| `NumberPacking.SizeShrinks` | libs/network/tcp_client.cpp:102-105 | a size with such a byte is read as a smaller number |
| `KeyAgreement.HelloArrives` | libs/network/epoll_v2.cpp:1190-1203 | the server reads the g, p and A that were sent if and only if no byte of the size of p is in 65..90 or 97..99 and A has three places; with such a byte it reads a shorter p, without one and with a shorter A it rejects the message |
| `KeyAgreement.SeventySevenDigits` | libs/network/epoll_v2.cpp:1190-1203 | for every p of 77 digits the server takes 7 for g, and g and 54 digits of p for p |
| `KeyAgreement.ClientHello` | libs/network/tcp_client.cpp:95-105 | the opening message is the size of p in four bytes, then g, p and g^a mod p in decimal, packed; it fails exactly when that power traps |
| `KeyAgreement.ServerReply` | libs/network/epoll_v2.cpp:1190-1224 | ignores messages of up to four bytes, rejects those that fail the layout test, crashes exactly when a power traps, otherwise answers g^b packed and holds A^b |
| `KeyAgreement.SafeExchange` | libs/network/epoll_v2.cpp:1205-1211 | none of the four exponentiations fails for a modulus whose top digit is not 2^32-1, or of one digit |
| `KeyAgreement.Exchange` | libs/network/tcp_client.cpp:474-483 | the exchange is established exactly when no byte of the size of p is in 65..90 or 97..99, no power traps and A has at least three decimal places, and then both ends hold one key text; with such a byte the server goes on with a shorter p |
| `Json.KeyLessIrreflexive` | libs/json/jsoncpp.cpp:2684-2696 | the key order is irreflexive |
| `Json.KeyLessIs` | libs/json/jsoncpp.cpp:2684-2696 | a key is less if and only if it is a proper prefix or has the smaller byte at the first difference |
| `Json.KeyLessTransitive` | libs/json/jsoncpp.cpp:2684-2696 | the key order is transitive |
| `Json.KeyLessTotal` | libs/json/jsoncpp.cpp:2684-2696 | and total |
| `Json.NormSame` | libs/json/jsoncpp.cpp:785-791 | the tree with the reader's tags is the same tree: shape, names, texts and numbers; integers up to 2^31-1 are signed and all others unsigned |
| `Json.SameTreeUnique` | libs/json/jsoncpp.cpp:785-791 | a tree has only one such form |
| `JsonRoundTrip.EscapeRoundTrip` | libs/json/jsoncpp.cpp:827-878 | every byte string survives escaping and decoding |
| `JsonRoundTrip.QuotedToken` | libs/json/jsoncpp.cpp:636-646 | a quoted string is read as one string token, whatever follows |
| `JsonRoundTrip.EscapedCodePointDecoded` | libs/json/jsoncpp.cpp:880-936 | every code point except a lone high surrogate, escaped as section 7 of RFC 8259 says, decodes to its UTF-8 bytes |
| `JsonRoundTrip.ShortEscape` | libs/json/jsoncpp.cpp:827-878 | each two-character escape of section 7 of RFC 8259 means what the long escape of its code point means |
| `JsonRoundTrip.NoOtherEscape` | libs/json/jsoncpp.cpp:827-878 | any other character after a backslash is an error |
| `JsonRoundTrip.EscapedHasNoControl` | libs/json/jsoncpp.cpp:4290-4350 | written strings hold no raw control character |
| `JsonRoundTrip.Utf8RoundTrip` | libs/json/jsoncpp.cpp:104-130 | the UTF-8 bytes determine the code point |
| `JsonRoundTrip.DecodeDigitsExact` | libs/json/jsoncpp.cpp:752-792 | the overflow test of `decodeNumber` accepts exactly the numbers up to the limit |
| `JsonRoundTrip.IntToken` | libs/json/jsoncpp.cpp:614-634 | a printed integer is read as one number token when a delimiter follows, and decodes to the same number |
| `JsonRoundTrip.NumberDecoded` | libs/json/jsoncpp.cpp:752-792 | any text of a sign and digits decodes to its number if it fits 64 bits, with the reader's tag, and is left to the stream extraction otherwise |
| `JsonRoundTrip.GrammarNumber` | libs/json/jsoncpp.cpp:614-634 | every number of the RFC 8259 grammar is one token |
| `JsonRoundTrip.ReadBack` | libs/json/jsoncpp.cpp:349-431 | reading the text of a value at any depth, when what follows cannot continue a number (`Closes`), gives the value or the stack-limit failure |
| `JsonRoundTrip.WriteThenParse` | libs/json/jsoncpp.cpp:349-936 | parsing a written document gives the same tree (`SameTree`: shape, names, texts and numbers), if and only if the nesting is within the limit of 1000; an integer is tagged signed exactly when it is at most 2^31-1 |
| `JsonRoundTrip.LiteralNames` | libs/json/jsoncpp.cpp:349-431 | `null`, `true` and `false` are read as such |
| `JsonRoundTrip.WhiteSpaceSkipped` | libs/json/jsoncpp.cpp:514-522 | white space of section 2 of RFC 8259 in front of a value changes nothing |
| `JsonRoundTrip.TrailingComma` | libs/json/jsoncpp.cpp:648-702 | an object that ends in a comma is accepted if and only if its last name is empty |
| `JsonRoundTrip.TrailingCommaInArray` | libs/json/jsoncpp.cpp:704-740 | an array that ends in a comma is rejected |
| `JsonCode.UintToString` | libs/json/jsoncpp.cpp:149-155 | digits backwards into the buffer: the decimal text, within the buffer for 64-bit values |
| `JsonCode.IntToString` | libs/json/jsoncpp.cpp:4143-4165 | the decimal text of any 64-bit integer, the least included |
| `JsonCode.QuoteString` | libs/json/jsoncpp.cpp:4290-4351 | both the fast path and the escaping loop give the quoted text |
| `JsonCode.FastWriter.WriteValue` | libs/json/jsoncpp.cpp:4378-4430 | appends the text of the value to the document, a double by its own text |
| `JsonCode.FastWriter.Write` | libs/json/jsoncpp.cpp:4370-4376 | the document is the text and a line feed |
| `JsonCode.Reader.SkipSpaces` | libs/json/jsoncpp.cpp:514-522 | stops at the first character that is no white space |
| `JsonCode.Reader.ReadString` | libs/json/jsoncpp.cpp:636-646 | the cursor moves past the closing quote that no backslash escapes, or to the end |
| `JsonCode.Reader.ReadNumber` | libs/json/jsoncpp.cpp:614-634 | the cursor moves past digits, fraction and exponent |
| `JsonCode.Reader.ReadToken` | libs/json/jsoncpp.cpp:443-512 | the token the cursor produces is the first token of the remaining text |
| `JsonCode.Reader.DecodeNumber` | libs/json/jsoncpp.cpp:752-792 | the value and its tag, or that it is a double, from the token's text |
| `JsonCode.Reader.DecodeCodePoint` | libs/json/jsoncpp.cpp:880-907 | one or two escapes give one code point |
| `JsonCode.Reader.DecodeString` | libs/json/jsoncpp.cpp:827-878 | the decoded text of a string token, or an error |
| `JsonCode.Reader.ReadArray` | libs/json/jsoncpp.cpp:704-740 | the loop reads the items that the grammar gives, or fails where it fails |
| `JsonCode.Reader.ReadObject` | libs/json/jsoncpp.cpp:648-702 | the loop reads the members that the grammar gives, a later duplicate replacing the earlier |
| `JsonCode.Reader.ReadValue` | libs/json/jsoncpp.cpp:349-431 | the recursive reader follows the grammar at every depth |
| `JsonCode.Parse` | libs/json/jsoncpp.cpp:307-347 | the parser object computes the grammar's result |
| `JsonCode.WriteAndParse` | libs/json/jsoncpp.cpp:4370-4376 | writer and reader together: the same tree with the reader's tags, or the stack limit, exactly by the nesting |
| `Bitbase.NumRoundTrip` | libs/bitbase.h:29-62 | a number that fits is read back from its bytes |
| `Bitbase.NumericToChars` | libs/bitbase.h:39-49 | the shift loop writes the big-endian bytes |
| `Bitbase.CharsToNumeric` | libs/bitbase.h:51-62 | the loop from the last byte computes the big-endian value |
| `Compressor.TokensFromMean` | libs/json/json_compressor.h:128-184 | the emitted words and blanks spell the text: no character is lost, added or moved, and every pending blank is written once |
| `Compressor.RenderKeeps` | libs/json/json_compressor.h:49-107 | word numbers stay a bijection and the word list only grows |
| `Compressor.DecodeRender` | libs/json/json_compressor.h:330-353 | what a cell was written as reads back as its text, with the dictionary as it is at any later time |
| `Compressor.CellsRead` | libs/json/json_compressor.h:116-199 | every cell of a table reads back as its text with the finished dictionary, whichever words were counted |
| `Compressor.RenderSize` | libs/json/json_compressor.h:49-107 | a cell takes at most five bytes a character |
| `Compressor.DictionaryIs` | libs/json/json_compressor.h:45-107 | the two passes put exactly these words in the dictionary: occurring markers, and occurring words longer than four bytes that, with `dindex`, occur twice |
| `CompressorLayout.WidthHolds` | libs/json/json_compressor.h:201-212 | the chosen width holds the length of every word |
| `CompressorLayout.GroupedFlat` | libs/json/json_compressor.h:319-360 | rows of one width are recovered from the cells in order |
| `CompressorLayout.RowRestored` | libs/json/json_compressor.h:381-384 | a restored row has exactly the listed fields, each with the original's text |
| `CompressorLayout.FindIs` | libs/json/json_compressor.h:124-126 | a lookup finds the first member of the name, and nothing exactly when there is none |
| `CompressorLayout.FieldTextIs` | libs/json/json_compressor.h:124-126 | the text taken from a row is the string that the first member of the name holds, and "" in every other case |
| `CompressorLayout.RowIsRestored` | libs/json/json_compressor.h:124-126 | the restored row has exactly the listed fields in key order, each with the string it had, or "" where it had none |
| `CompressorLayout.SmallTableFits` | libs/json/json_compressor.h:188-193 | tables with texts of at most 13107 characters and bounded total size meet the format's bounds |
| `CompressorCode.Writer.ReplaceByIndex` | libs/json/json_compressor.h:49-107 | one call counts a long word, or writes the word or its number, as the emission rules say |
| `CompressorCode.Writer.ProcessText` | libs/json/json_compressor.h:122-184 | the separator loop makes exactly the emissions of the text, in both passes |
| `CompressorCode.Writer.CountAll` | libs/json/json_compressor.h:198 | the first pass counts the long words of all cells |
| `CompressorCode.Writer.WriteAll` | libs/json/json_compressor.h:199 | the second pass writes all cells with their lengths and builds the dictionary |
| `CompressorCode.Compress` | libs/json/json_compressor.h:17-234 | the bytes of `compress`: header, fields, cells, dictionary; for a value that is no array the field list alone; and what is left when an item that is no object throws |
| `CompressorCode.DecodeText` | libs/json/json_compressor.h:330-353 | the cell loop decodes literals, markers and numbers, short and unknown ones included |
| `CompressorCode.Decompress` | libs/json/json_compressor.h:237-370 | any well-formed table is read into rows decoded with its dictionary |
| `CompressorCode.RoundTrip` | libs/json/json_compressor.h:17-370 | decompressing a compressed table gives every row exactly the listed fields, each with the string that the original row held there, or "" where it held none |
| `Framing.RunConcat` | libs/network/epoll_v2.cpp:1101-1172 | the matcher fed a stream in two parts gives what it gives for the whole |
| `Framing.ChunkingIrrelevant` | libs/network/epoll_v2.cpp:1101-1172 | any chunking of a stream gives the same messages and the same end state |
| `Framing.ProcessRead2` | libs/network/epoll_v2.cpp:1101-1172 | the iterative parser is that matcher; what it holds back is a proper prefix of the delimiter |
| `Framing.LimitedIsRun` | libs/network/epoll_v2.cpp:1025-1099 | the recursive parser gives the matcher's messages and state if and only if it does not give up |
| `Framing.ShortNeverStops` | libs/network/epoll_v2.cpp:1025-1099 | the depth grows by at most one a byte and one a completed delimiter, so input within the limit never makes it give up |
| `Framing.OneByteNeverStops` | libs/network/epoll_v2.cpp:1025-1099 | with a delimiter of one byte it never gives up |
| `Framing.ParsersAgree` | libs/network/epoll_v2.cpp:1025-1172 | both parsers agree on every buffer of at most 20000 bytes, whatever the state and the delimiter |
| `Framing.LongLoses` | libs/network/epoll_v2.cpp:1025-1099 | a buffer of 20001 bytes on which the recursive parser gives up and the results differ |
| `Framing.ReadFrom` | libs/network/epoll_v2.cpp:1031-1094 | the recursive lambda computes the depth-limited matcher |
| `Framing.ProcessRead` | libs/network/epoll_v2.cpp:1025-1099 | the recursive parser as a whole |
| `Splitting.SplitConcat` | libs/network/tcp_client.cpp:573-611 | leftmost splitting of a stream in parts is leftmost splitting of the whole |
| `Splitting.ClientBuffer.Check` | libs/network/tcp_client.cpp:573-609 | one search from the resume offset misses nothing and hands on the piece before the leftmost delimiter |
| `Splitting.ClientBuffer.ReadBytes` | libs/network/tcp_client.cpp:463-611 | one read: the delivered pieces and the kept bytes are the leftmost splitting of kept and new bytes |
| `Splitting.ClientBuffer.ReadAll` | libs/network/tcp_client.cpp:463-611 | any list of reads: the delivered pieces and the kept bytes are the leftmost splitting of the whole stream |
| `Splitting.ServerSplitsLeftmost` | libs/network/epoll_v2.cpp:1101-1172 | the server's matcher is leftmost splitting for all streams if and only if the delimiter is self-aligned |
| `Splitting.ServerDelivers` | libs/network/epoll_v2.cpp:988-991 | framed payloads without the delimiter arrive exactly, in order, less the empty ones, if and only if the delimiter's first byte does not recur |
| `Splitting.ClientDelivers` | libs/network/tcp_client.cpp:836-845 | the same at the client, if and only if the delimiter has no border |
| `WriteQueue.CoalesceRest` | libs/network/epoll_v2.cpp:673-695 | merging short messages changes no byte and no order |
| `WriteQueue.CoalesceMaximal` | libs/network/epoll_v2.cpp:673-695 | merging goes on as long as it may: the first two messages left are not both small and unsent, and a merged one is below twice the limit |
| `WriteQueue.StepInv` | libs/network/epoll_v2.cpp:97-195 | every step keeps the invariant: one worker or pending action at most, and no byte lost, doubled or reordered |
| `WriteQueue.RunInv` | libs/network/epoll_v2.cpp:668-774 | so does every interleaving of steps |
| `WriteQueue.WritePathSafe` | libs/network/epoll_v2.cpp:668-774 | in every run bytes sent + held + queued are the concatenation of everything pushed, in order |
| `WriteQueue.EndToEnd` | libs/network/epoll_v2.cpp:973-993 | for an unbordered delimiter that no payload holds, what a client splits from the bytes sent so far is a prefix of the payloads pushed, less empty ones, and all of them once the connection is at rest |
| `WriteQueue.NextStep` | libs/network/epoll_v2.cpp:590-625 | a connection that is not at rest always has a step that brings it closer to rest |
| `WriteQueue.Drain` | libs/network/epoll_v2.cpp:668-774 | from every state a run without pushes leads to rest, and then exactly what was pushed has been sent |
| `WriteQueue.AllDelivered` | libs/network/epoll_v2.cpp:668-774 | so every run can be continued until the client has received all payloads |
| `WriteQueue.PartlySentBlocks` | libs/network/epoll_v2.cpp:160-180 | what could not be sent whole waits at the front of the queue |
| `WriteQueue.BlockedUntilEpollOut` | libs/network/epoll_v2.cpp:590-600 | and nothing more is sent until the socket reports that it takes bytes again |
| `WriteQueue.Connection.PushMessage` | libs/network/epoll_v2.cpp:973-993 | a message is queued between two delimiters |
| `WriteQueue.Connection.Merge` | libs/network/epoll_v2.cpp:673-695 | the merging loop computes the coalesced queue |
| `WriteQueue.Connection.WriteToFd` | libs/network/epoll_v2.cpp:698-774 | the front message goes to a worker exactly when none is at work |
| `WriteQueue.Connection.Send` | libs/network/epoll_v2.cpp:711-764 | one send moves the cursor and decides the status |
| `WriteQueue.Connection.Finish` | libs/network/epoll_v2.hpp:444-514 | the result becomes the pending action unless one is there |
| `WriteQueue.Connection.Handle` | libs/network/epoll_v2.cpp:101-191 | the action ends the processing and puts the rest of a message back at the front |
| `WriteQueue.Connection.EpollOut` | libs/network/epoll_v2.cpp:421-443 | the front message stops waiting |
| `WriteQueue.Connection.Run` | libs/network/epoll_v2.cpp:97-195 | any run of steps on the object keeps the account, and a client gets the payloads in order, all of them at rest |
| `Calendar.YearLength` | libs/date_time.h:663-684 | month lengths and leap rule agree: a year is the sum of its months, 365 or 366 days |
| `Calendar.MonthStart` | libs/date_time.h:661-684 | the days before a month are (367*month - 362)/12, less 1 or 2 after February by the 4/100/400 rule |
| `Calendar.MonthLength` | libs/date_time.h:661-684 | each month's length is the distance of two such starts |
| `Calendar.CivilDay` | libs/date_time.h:661-684 | the day number of a date in closed form, without a table of months |
| `Calendar.OrderIsInstant` | libs/date_time.h:232-235 | `<` agrees with the instant, and an instant has one reading in calendar range |
| `Calendar.LessIsEarlier` | libs/date_time.h:62-65 | the order of dates, then of times down to milliseconds, is the order of instants |
| `Calendar.TimesOrdered` | libs/date_time.h:129-134 | the order of times of day is the order of milliseconds |
| `Calendar.Incr` | libs/date_time.h:853-861 | a positive count is brought in range, whole units moving to the next field |
| `Calendar.Decr` | libs/date_time.h:795-805 | a count that is not positive is brought in range by borrowing whole units |
| `Calendar.DateTime.IncrMonth` | libs/date_time.h:863-877 | too many days run on into later months, the instant staying the same |
| `Calendar.DateTime.DecrMonth` | libs/date_time.h:807-822 | missing days are taken from earlier months, the instant staying the same |
| `Calendar.DateTime.IncrAll` | libs/date_time.h:824-851 | any carries are settled: same instant, every field in range, and the day of the year is right |
| `Calendar.DateTime.AddMsecs` | libs/date_time.h:686-691 | the instant moves by n milliseconds |
| `Calendar.DateTime.AddSecs` | libs/date_time.h:693-698 | the instant moves by n seconds |
| `Calendar.DateTime.AddMins` | libs/date_time.h:700-705 | the instant moves by n minutes |
| `Calendar.DateTime.AddHours` | libs/date_time.h:707-712 | the instant moves by n hours |
| `Calendar.DateTime.AddDays` | libs/date_time.h:714-719 | the instant moves by n days |
| `Calendar.DateTime.AddMonth` | libs/date_time.h:721-744 | the month index moves by n; a day the new month lacks runs on |
| `Calendar.DateTime.AddYear` | libs/date_time.h:746-751 | the month index moves by 12n |
| `Calendar.AddDaysTwice` | libs/date_time.h:714-719 | adding a days and then b is adding a+b, and opposite amounts restore the date |
| `Calendar.MonthRoundTrip` | libs/date_time.h:721-744 | n months on and n back restores a date if and only if the month passed through has its day |
| `Calendar.AddMonthAndBack` | libs/date_time.h:721-744 | the same of two calls of `add_month` on one object |
| `Md5.PaddedWhole` | libs/md5.cpp:298-330 | the padded message is whole blocks and starts with the message |
| `Md5.PaddedBytes` | libs/md5.cpp:298-330 | the padding byte by byte: the message, 0x80, fewer than 64 zeros, and the number of bits in eight bytes, low byte first |
| `Md5.InitialBytes` | libs/md5.cpp:120-132 | the four initial words are the bytes 01 23 45 67 89 ab cd ef fe dc ba 98 76 54 32 10 of section 3.3 of RFC 1321 |
| `Md5.DigestOfIdentity` | libs/md5.cpp:298-330 | a compression that changes nothing gives those bytes as digest: words and bytes keep their order |
| `Md5.EncodeWord` | libs/md5.cpp:148-156 | four bytes, low first, whose positional value is the word |
| `Md5.FoldConcat` | libs/md5.cpp:251-284 | whole blocks may be compressed in any grouping |
| `Md5.CountAdds` | libs/md5.cpp:256-259 | two 32-bit additions with a carry test add 8 times the length modulo 2^64 |
| `Md5.IndexFromCount` | libs/md5.cpp:254 | the buffer position can be read off the low counter word |
| `Md5.MD5.Update` | libs/md5.cpp:251-284 | state, buffer and counter stand for everything fed since the start or the last `finalize`; fails exactly when the 32-bit loop test wraps |
| `Md5.ShortNeverOverruns` | libs/md5.cpp:274 | inputs more than 64 bytes below 2^32 never wrap it |
| `Md5.LongestOverruns` | libs/md5.cpp:274 | the largest input does |
| `Md5.MD5.Finalize` | libs/md5.cpp:298-330 | the digest is that of the message padded as sections 3.1 and 3.2 of RFC 1321 say; a second call changes nothing |
| `Md5.DigestOf` | libs/md5.cpp:251-330 | the digest depends on the concatenation of the inputs only, however they were cut; it fails exactly when an input wraps the test |
| `Gost.LookupAt` | libs/gost_28147_89/gost_89.cpp:259-265 | for one word the four lookups are nibble substitution and rotation by 11 exactly when its replacements do not overlap |
| `Gost.LookupIsStandard` | libs/gost_28147_89/gost_89.cpp:171-187 | they are so for every word, section 5 of RFC 5830, if and only if no entry of rows 1, 3, 5 reaches into an entry of the next row |
| `Gost.NibblesDisjoint` | libs/gost_28147_89/gost_89.cpp:171-187 | tables of nibbles are such tables |
| `Gost.AddMod` | libs/gost_28147_89/gost_89.h:40-45 | addition modulo 2^32-1 |
| `Gost.RoundsInjective` | libs/gost_28147_89/gost_89.cpp:267-276 | the rounds lose nothing: different blocks stay different |
| `Gost.BlockUndone` | libs/gost_28147_89/gost_89.cpp:267-276 | the block transformation is undone by the same rounds with the keys once up and three times down, as section 5 of RFC 5830 deciphers |
| `Gost.OrderReversed` | libs/gost_28147_89/gost_89.cpp:10-16 | that order of the key words is the enciphering one backwards |
| `Gost.CounterIs` | libs/gost_28147_89/gost_89.cpp:231-232 | after j steps the counter halves are start + j*0x1010101 modulo 2^32 and start + j*0x1010104 modulo 2^32-1 |
| `Gost.CounterRepeats` | libs/gost_28147_89/gost_89.cpp:231-232 | two counters are equal if and only if they are a multiple of 2^32*(2^32-1) steps apart |
| `Gost.GammaRepeats` | libs/gost_28147_89/gost_89.cpp:227-236 | so are two blocks of the keystream |
| `Gost.KeyIndex` | libs/gost_28147_89/gost_89.cpp:10-16 | the key words go three times up and once down |
| `Gost.PreparedNibbles` | libs/gost_28147_89/gost_89.cpp:349-358 | `prepare` installs nibbles if and only if all the key bytes it uses are nibbles |
| `Gost.KeyTable` | libs/gost_28147_89/gost_89.cpp:349-356 | the nested loop fills the rows with key bytes |
| `Gost.LongKeysAgree` | libs/gost_28147_89/gost_89.cpp:333-362 | keys that share their first 121 bytes encipher alike |
| `Gost.RowsOfLongKeys` | libs/gost_28147_89/gost_89.cpp:349-356 | the first row is the first sixteen key bytes, and byte 121 is the last that is used |
| `Gost.SyncBytes` | libs/gost_28147_89/gost_89.cpp:344-348 | in memory the start value is every fourth key byte |
| `Gost.KeyWordBytes` | libs/gost_28147_89/gost_89.cpp:344-348 | and the key words are the first thirty-two |
| `Gost.ShortKeysGiveNoNibbles` | libs/gost_28147_89/gost_89.cpp:340-358 | a key below 32 bytes, replaced by digest text, never gives nibbles |
| `Gost.CryptedTwice` | libs/gost_28147_89/gost_89.cpp:236-251 | the same keystream laid over twice is none |
| `Gost.G89.SetTable` | libs/gost_28147_89/gost_89.cpp:171-187 | the loops fill all four lanes with the expanded entries |
| `Gost.G89.LookUp` | libs/gost_28147_89/gost_89.cpp:259-265 | `f` on the expanded table |
| `Gost.G89.CryptBlock` | libs/gost_28147_89/gost_89.cpp:267-276 | sixteen passes of two are 32 rounds of the standard, the last without exchange |
| `Gost.G89.CryptData` | libs/gost_28147_89/gost_89.cpp:201-256 | every byte is xored with its keystream byte, using ceil(size/8) blocks, whatever lies behind the source |
| `Gost.G89.Prepare` | libs/gost_28147_89/gost_89.cpp:333-362 | table, start value and key words are read off the key, or off the digest's text for short keys |
| `Gost.G89.Crypt` | libs/gost_28147_89/gost_89.cpp:278-331 | `crypt` and `decrypt` both compute the enciphered text |
| `Gost.CryptAndDecrypt` | libs/gost_28147_89/gost_89.cpp:278-331 | deciphering an enciphered message with the same key gives it back, for every message and key |
| `ClientPool.ClientMutex.Initialize` | rssdisk/client/rssdisk_pool.hpp:320-343 | exactly the slots whose set-up works get a client, and clients and free slots partition the slots |
| `ClientPool.ClientMutex.SlotFree` | rssdisk/client/rssdisk_pool.hpp:276-285 | below the maximum there is always a free slot |
| `ClientPool.ClientMutex.Acquire` | rssdisk/client/rssdisk_pool.hpp:254-311 | hands out the first client nobody holds, or a new one on the last free slot when all are held; fails exactly when all are held and none can be added; the slot's time of use is set |
| `ClientPool.ClientMutex.Release` | rssdisk/client/rssdisk_pool.hpp:313-318 | gives one slot back; a slot that nobody holds changes nothing |
| `ClientPool.ClientMutex.Drop` | rssdisk/client/rssdisk_pool.hpp:398-408 | drops the one client of a slot and frees the slot |
| `ClientPool.ClientMutex.Clear` | rssdisk/client/rssdisk_pool.hpp:368-414 | drops exactly the first idle clients in order down to the minimum and returns them; none that is held or was used within the hour, and an idle one stays only at the minimum |
| `ClientPool.IdleSlotsAre` | rssdisk/client/rssdisk_pool.hpp:377-395 | idle are exactly the clients last used 3600 seconds ago or longer and not in use |
| `ClientPool.ClientMutex.Run` | rssdisk/client/rssdisk_pool.hpp:254-414 | in every run of calls the partition holds, no slot has two holders, and a slot is free below the maximum |
| `ThreadPool.StepInv` | libs/thread_worker.h:32-70 | every atomic step keeps: counter = counted and not queued + queued + with a worker + lost; no task in two places; a zero counter has been announced or a worker is still to look at it |
| `ThreadPool.RunInv` | libs/thread_worker.h:107-119 | so does every interleaving of the three steps of a push, the five of a worker, clears and a stop |
| `ThreadPool.ZeroMeansDone` | libs/thread_worker.h:137-146 | a zero counter means that everything counted was executed and nothing lost |
| `ThreadPool.StuckForever` | libs/thread_worker.h:168-172 | once a task is lost, or a stopped pool has a task that no worker will take, the counter is above zero in every later state |
| `ThreadPool.Drain` | libs/thread_worker.h:137-146 | otherwise a run to a zero counter exists |
| `ThreadPool.WaitCanEnd` | libs/thread_worker.h:137-146 | waiting can still end if and only if nothing was lost and the pool runs or its workers have all there is |
| `ThreadPool.NeverClearedDrains` | libs/thread_worker.h:168-172 | which holds in every state of a pool never cleared and never stopped |
| `ThreadPool.PushAccount` | libs/thread_worker.h:107-119 | on a pool not stopped every push is counted or about to be |
| `ThreadPool.WaitMeansAllRun` | libs/thread_worker.h:137-146 | at a zero counter the executions are exactly the counted tasks, each as often as it was pushed |
| `ThreadPool.FirstInFirstOut` | libs/thread_worker.h:41-55 | without a clear, tasks are taken in the order they were queued |
| `ThreadPool.StoppedRunsOut` | libs/thread_worker.h:95-119 | a stopped pool stays stopped, lets no push in and executes no more than its workers already have |
| `ThreadPool.Shared.Admit` | libs/thread_worker.h:109 | a push loads the running flag |
| `ThreadPool.Shared.Count` | libs/thread_worker.h:111 | then counts its task, even if the pool was stopped meanwhile |
| `ThreadPool.Shared.EndPush` | libs/thread_worker.h:113-117 | then queues it last |
| `ThreadPool.Shared.Enter` | libs/thread_worker.h:41-51 | a worker with the lock goes on exactly when the pool runs and there is a task |
| `ThreadPool.Shared.TakeTask` | libs/thread_worker.h:53-55 | and takes the first one |
| `ThreadPool.Shared.Discount` | libs/thread_worker.h:57-59 | the counter goes down after the task has returned |
| `ThreadPool.Shared.CheckIdle` | libs/thread_worker.h:61-68 | the later look tells the waiters exactly when the counter is zero then, and all that was counted is done |
| `ThreadPool.Shared.ClearQueue` | libs/thread_worker.h:168-172 | the queue is emptied and the counter not lowered, so a cleared task leaves the pool stuck |
| `ThreadPool.Shared.StopPool` | libs/thread_worker.h:95-100 | the running flag goes down |
| `ThreadPool.Shared.Run` | libs/thread_worker.h:32-146 | any run of steps on the object ends in the machine's state, and at a zero counter exactly the counted tasks have been executed, all of them pushed |
| `ThreadPool.Ranges` | libs/thread_worker.h:184-204 | the inclusive ranges are laid end to end: every index reached is in exactly one, and none for a negative size |
| `ThreadPool.AllReached` | libs/thread_worker.h:184-204 | all indices are reached if and only if `start + count_per_thread` does not leave 32 bits before the last thread |
| `ThreadPool.FewThreads` | libs/thread_worker.h:184-204 | which never happens with up to 46341 threads |
| `ThreadPool.ManyThreads` | libs/thread_worker.h:184-204 | and does for the largest size with 100001 threads |
| `ThreadPool.CoveragePermuted` | libs/thread_worker.h:214-239 | how often an index is covered does not depend on the order of execution |
| `ThreadPool.EveryIndexOnce` | libs/thread_worker.h:214-239 | once the pushes of a call have returned and the counter is zero on a pool not stopped, the executions of the call are exactly its ranges, so every index was processed exactly once |
| `MapTime.LiveAnswers` | libs/map_time.h:52-65 | dropping what has expired changes no later answer |
| `MapTime.FoundUntil` | libs/map_time.h:52-65 | a value inserted with a time to live is found exactly up to its end |
| `MapTime.SweepIsFull` | libs/map_time.h:98-128 | sweeping the expired prefix of the index is sweeping the whole map |
| `MapTime.TimedMap.Insert` | libs/map_time.h:35-44 | the newest value wins and is indexed |
| `MapTime.TimedMap.Erase` | libs/map_time.h:46-50 | the key is gone, the index still covers the rest |
| `MapTime.TimedMap.Get` | libs/map_time.h:52-65 | the value if it is there and not expired |
| `MapTime.TimedMap.RemoveIf` | libs/map_time.h:67-78 | the key is removed exactly when its value satisfies the predicate |
| `MapTime.TimedMap.InsertItem` | libs/map_time.h:179-184 | an existing key keeps its value and every key stays indexed |
| `MapTime.TimedMap.ClearTtl` | libs/map_time.h:98-128 | keeps exactly the entries not expired, and changes no answer given at that time or later |

## Left out

- Sockets, epoll calls, timeouts, zlib, curl, OpenSSL and Crypto++: foreign code; encryption and zlib compression in transit are not modelled, and the key agreement starts from what zlib delivers.
- Connections that are removed, failing `epoll_ctl` calls and reused descriptors: the write path is modelled for a connection that stays.
- `DH::operator=(char const*)`, which scans without resetting the number.
- Allocation sizes of `adjust_size` beyond 32 bits: digit vectors are assumed to fit in memory.
- BigNumber.DH.AddDigits: the digit string is another one's; a number's own string is `PlusSelf`.
- BigNumber.DH.Plus: the other number is another object; adding a number to itself is `PlusSelf`.
- ModularPower.PowTrapsExactly: for moduli of two digits with the largest top digit the failing inputs are those of the loop (`PowTraps`), without a closed form.
- Numerals.TextRoundTrip: bases beyond 36, whose digits the scanner does not know.
- NumberText.DigitCount: bases zero and one, on which the source divides by zero.
- NumberText.AsString: bases zero and one, on which the source divides by zero or loops.
- NumberText.GetString: bases zero and one, as for `digits`.
- NumberPacking.CompressNumber: texts of 2^31 bytes or more, whose size does not fit the source's `int`.
- NumberPacking.UncompressNumber: texts of 2^31 bytes or more, as for `compress_number`.
- KeyAgreement.ServerReply: fields that are not decimal text, whose numbers the scanner cuts off.
- KeyAgreement.HelloArrives: a p of 2^31 - 7 digits or more.
- KeyAgreement.Exchange: a p of 2^31 - 7 digits or more; the random exponents and the choice of p are parameters; what the server computes from a shorter p is not followed.
- JsonCode.Reader.ReadToken: comments; a slash is an error token here.
- JsonCode.Reader.ReadValue: comments and error recovery.
- JsonCode.Reader.ReadArray: comments and error recovery.
- JsonCode.Reader.ReadObject: comments, numeric keys and error recovery.
- JsonCode.Parse: comments, error messages and strict-root mode, which is off by default; which texts convert to a double is a parameter.
- JsonCode.FastWriter.WriteValue: the formatting of a double, whose text is given.
- `OurReader` and the styled writers of jsoncpp.
- Bitbase.CharsToNumeric: target types narrower than the bytes given, where the source shifts beyond the type.
- CompressorCode.Compress: positions in a text are unbounded although the source keeps them in 32 bits.
- CompressorCode.DecodeText: the markers and the width of numbers are those that `compress` writes.
- CompressorCode.Decompress: only well-formed tables; on others the source may loop forever. The default widths (4-byte numbers, 2-byte lengths) are fixed.
- The two `row_append` variants that build text instead of values.
- Calendar.DateTime.IncrAll: 32-bit overflow of the fields and the validity flags; parsing, formatting, the system clock and comparisons other than `<`.
- The 64 constants of MD5's `transform`, which is a parameter, and `hexdigest`.
- Gost.G89.CryptData: the bytes that the source reads behind a last partial block are a parameter, and the result is shown not to depend on them; the default table and start value are left out.
- The client pool's `stop`, its waiting for connections, and negative limits.
- The thread pool's condition variables, pausing and destructor.
- The expiring map's serialisation formats and its clock, which is a parameter.
- Base64, crc32, percent encoding, caches and queues elsewhere in the repository: they would only add easier members.
