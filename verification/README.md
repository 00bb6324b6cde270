# Verified cores of the embedded wallet

A model of four parts of an embedded Ethereum wallet written in C, with proofs. Each Dafny module follows one
source file; code that works in place is written in place (classes, arrays, loops) and proved against functions
that say what it computes, and the promises of the source are lemmas about those functions.

* **Wide integers** (`Words`, `Uint256`, `Division`, `Multiplication`, `IntMath`). 128-bit numbers are two 64-bit
  words, 256-bit numbers two 128-bit ones, results are written through a target that may be an operand. Every
  operation is proved against plain arithmetic on natural numbers. A struct is a class, so aliasing is real:
  two 256-bit structs may be the same or disjoint, but the upper half of one is never the lower half of another.
* **The JSON tokenizer** (`Jsmn`, `JsmnInvariants`, `JsmnResume`, `JsmnStack`, `JsmnTree`, `JsmnLexis`, `JsmnPartial`).
  The C code is the class `Jsmn.Parser`; it is proved to run the step machine `Jsmn.Run`, and everything else is proved
  about the machine. Which texts it accepts is stated over a lexical grammar and a printer of their own, in which every
  class of characters is a list of characters.
* **RLP and transactions** (`Bytes`, `Rlp`, `Transactions`). The specification is Appendix B of the Ethereum Yellow
  Paper, with a strict decoder; the encoder writes into a byte array, moves the payload up and puts a header before it.
* **Texts** (`HexToBin`, `Uint256Text`, `ShellFormat`, `Fp2Str`, `AbiData`, `Web3Reply`, `Web3Nodes`, `Web3ReplyTree`,
  `Web3ReplyRefused`, `Web3ReplyMisread`). Hexadecimal and decimal conversion, fixed point, the amount in an ERC-20 call, and the decoder of
  a node's reply, which composes the tokenizer, the string comparison and the number parsers, for results and for error
  objects.

The host is little-endian, as the raw word copies of the source assume. `size_t` and positions in a text are unbounded;
fixed-width words wrap where the source's do. A buffer is an array and an offset, a C string its characters before the
NUL. Requirements on a method are what the C code needs to stay inside its memory, to pass its own assertions, or to
terminate.

Where the code does not do what it is for, the code is kept, a lemma shows an input, and another says exactly when it
is right:

* `mul256` adds the carry of one column at 2^192 instead of 2^128 (`Multiplication.MulGoesWrong`,
  `Multiplication.MulExactIff`).
* `shiftr128` by exactly 64 in place loses the number (`Uint256.ShiftedInPlace`, `Uint256.ShiftedInPlaceIff`).
* `hextobin` counts in 8 bits and never ends on the text `bintohex` writes for 128 bytes or more
  (`HexToBin.LongTextNeverEnds`, `HexToBin.DecodeInvertsHexTextIff`).
* The list header and the room kept for it disagree for payloads of exactly 55 bytes, and lengths are cut to 16 bits
  (`Transactions.FiftyFiveBytes`, `Transactions.TooManyBytes`).
* A 256-bit value in a transaction is encoded right below 2^64. From there to 2^128 bytes behind the struct are encoded,
  and from 2^128 on the 32 bytes of memory, in the host's order within each word and with leading zeros
  (`Transactions.ValuesMisread`, `Transactions.ValueRightIff`). The r and s of a signature are encoded wrong when they
  start with a zero byte, about one signed transaction in 128 (`Transactions.ScalarsMisread`,
  `Transactions.ScalarRightIff`).
* The single byte 0 as data becomes empty data, and data of length 0 behind a pointer encodes a byte of the pointer
  (`Transactions.DataMisread`). All these conditions together are `Transactions.Encodable`, and the encoding is right
  exactly then (`Transactions.EncodingIff`).
* `jsmn_parse` called again after a text that was cut inside a primitive gives other tokens than one call
  (`JsmnResume.NumberCutInTwo`, `JsmnResume.ResumeIsOneShotIff`).
* `fromstring256` takes a second `0x` off without moving the digits: `0x0x12` is read as `0x1200`
  (`Uint256Text.InnerPrefixMisread`, `Uint256Text.ParsesIff`).
* `ipow(10, d)` wraps from d = 20 on, so amounts are printed and scaled wrongly (`ShellFormat.TwelveForOne`,
  `ShellFormat.PrintedExactlyIff`, `AbiData.OneTokenWrong`, `AbiData.AmountExactIff`).
* `fp2str` multiplies by ten in 32 bits: with 29 fraction bits it loses decimals when a product wraps, with 30 always;
  without fraction bits numbers from 2^31 on come out negative (`Fp2Str.NineIsLost`, `Fp2Str.LargeIsNegative`,
  `Fp2Str.ExactIff`).
* The reply decoder looks for names at any depth and among values. It takes the id of a nested object for that of the
  reply, a value "id" makes it read the key behind it as a number, and a name as the last token makes it read stale
  memory (`Web3ReplyMisread.DeeperIdWins`, `Web3ReplyMisread.NamesAsValuesWin`, `Web3ReplyTree.NameAsValueRefused`,
  `Web3ReplyMisread.LastNameReadsStack`). When it is right is `Web3ReplyTree.DecodedRightIff` and
  `Web3ReplyTree.ErrorDecodedRightIff`, for all regular replies: those in which, up to the first fault, no name is the
  last token, and no error object has an array or an object as its message or the string "code" or "message" as another
  value.

## Model

| member | source | states |
|---|---|---|
| Jsmn.Parser.AllocToken | helpers/jsmn.c:6-19 | takes the next token of the pool and resets it, or fails and changes nothing when the pool is used up |
| Jsmn.Parser.ParsePrimitive | helpers/jsmn.c:35-79 | one primitive, up to the delimiter: token, position and every error case, with and without a token array |
| Jsmn.Parser.ParseString | helpers/jsmn.c:84-146 | one string with its escapes: token, position restored on error, INVAL, PART and NOMEM exactly when they are due |
| Jsmn.Parser.CloseBracket | helpers/jsmn.c:182-230 | the backward scan closes the innermost open token and finds the new superior, or refuses without change |
| Jsmn.Parser.Comma | helpers/jsmn.c:243-260 | when the superior is no container, a comma makes the innermost open container the superior, if there is one |
| Jsmn.Parser.Dispatch | helpers/jsmn.c:162-290 | one turn of the loop is one step of the machine, counting included |
| Jsmn.Parser.Parse | helpers/jsmn.c:151-303 | the whole call, from any parser state, computes the final state and result of the machine; without tokens, the dry count; unallocated tokens stay as they were |
| JsmnInvariants.StepKeepsInv | helpers/jsmn.c:151-291 | each step keeps: starts strictly increase, spans are nested or apart, -1 <= toksuper < toknext |
| JsmnInvariants.RunKeepsInv | helpers/jsmn.c:151-303 | so does every run from every such state |
| JsmnInvariants.SuccessIsLaminar | helpers/jsmn.c:293-303 | on success nothing is open, the result counts the tokens, and any two spans are disjoint or nested |
| JsmnInvariants.RunResult | helpers/jsmn.c:151-303 | tokens are never taken back, and a result that is no error is the number of tokens at the end of the text |
| JsmnInvariants.SizesAddUp | helpers/jsmn.c:158-291 | conservation: sizes add up to the tokens allocated less those allocated while toksuper was -1 |
| JsmnResume.ResumeIsOneShot | helpers/jsmn.c:151-303 | after NOMEM or PART, going on with more tokens and more text ends as one call with those does |
| JsmnResume.SplitPrimitiveDiffers | helpers/jsmn.c:63-79 | a cut inside a primitive always changes the outcome |
| JsmnResume.ResumeIsOneShotIff | helpers/jsmn.c:151-303 | resuming equals one call if and only if the cut does not split a primitive |
| JsmnResume.NumberCutInTwo | helpers/jsmn.c:63-79 | `[12` and then `[123]` leave three tokens, one call leaves two |
| JsmnResume.ClosedTokensStay | helpers/jsmn.c:151-303 | a closed token keeps its type and span in every later run |
| JsmnResume.SessionIsOneShot | helpers/jsmn.c:151-303 | any number of resumed calls end as one call with the last text and pool |
| JsmnStack.CloseStepRefuses | helpers/jsmn.c:209-221 | a closing bracket gives INVAL exactly when the stack of open tokens is empty or its top has the other type |
| JsmnStack.CloseStepIsPop | helpers/jsmn.c:209-228 | otherwise it closes the top, pops the stack and makes the new top the superior |
| JsmnStack.RunRefinesStack | helpers/jsmn.c:182-300 | the tokenizer without a stack returns what a matcher with an explicit stack returns |
| JsmnStack.RunBudget | helpers/jsmn.c:9-11 | a pool with the tokens that were used gives the same run, any smaller one NOMEM |
| JsmnStack.EnoughTokens | helpers/jsmn.c:151-303 | one token per character never runs out |
| JsmnStack.ParseOutcome | helpers/jsmn.c:151-303 | the result of every fresh parse: the matcher's with m >= the needed tokens, NOMEM below; the call without tokens returns the same count |
| JsmnStack.MatchesIffBalanced | helpers/jsmn.c:182-230 | matching with a stack is being generated by the grammar of balanced words |
| JsmnStack.SuccessIffBalanced | helpers/jsmn.c:151-303 | with enough tokens a text is accepted if and only if its strings and primitives scan and its brackets are balanced |
| JsmnTree.ReadValue | helpers/jsmn.c:151-303 | a printed value is read back inside any open containers |
| JsmnTree.ParseInvertsPrint | helpers/jsmn.c:151-303 | parser inverts printer: every JSON value, with any of the four whitespace characters of RFC 8259 section 2 anywhere, gives exactly its preorder tokens, types, spans and sizes |
| JsmnTree.ClassesAgree | helpers/jsmn.c:43-132 | the tokenizer's classes of characters, each as the list of its characters: whitespace, what ends a primitive, brackets, escapes, hex digits |
| JsmnLexis.StringScanIs | helpers/jsmn.c:92-145 | a string goes on over well-formed contents, and then stands its quote, an escape that is none, or the end of the text, possibly within an escape |
| JsmnLexis.WordIs | helpers/jsmn.c:43-62 | a primitive goes on over visible characters to a delimiter or the end of the text, or to a character that may not stand in it |
| JsmnLexis.AcceptedIff | helpers/jsmn.c:151-303 | every text and pool: accepted if and only if it is spelled by lexemes with balanced brackets and no more tokens than the pool has; the result is their number, and -1 when the pool is too small |
| JsmnLexis.KindsRead | helpers/jsmn.c:151-303 | the tokens have, in order, the types of the opening brackets, words and strings of the text |
| JsmnPartial.PartialIff | helpers/jsmn.h:28-31 | with enough tokens -3 is returned if and only if the text is not accepted and some continuation is, and -2 if and only if no continuation is |
| Uint256.Zero256 | helpers/uint256.c:74-76 | true exactly for the value 0 |
| Uint256.Equal256 | helpers/uint256.c:236-240 | word equality is equality of values |
| Uint256.Gt256 | helpers/uint256.c:250-256 | the two-level comparison is the order of values |
| Uint256.Gte256 | helpers/uint256.c:263-265 | not less |
| Uint256.Add128 | helpers/uint256.c:267-272 | addition mod 2^128 under any aliasing |
| Uint256.Add256 | helpers/uint256.c:274-285 | addition mod 2^256, with the carry found by comparing, also in place |
| Uint256.Minus128 | helpers/uint256.c:287-292 | subtraction mod 2^128 under any aliasing |
| Uint256.Minus256 | helpers/uint256.c:294-305 | subtraction mod 2^256, also in place |
| Uint256.Or256 | helpers/uint256.c:312-315 | bitwise or of the 256-bit values |
| Uint256.Shiftl128 | helpers/uint256.c:98-116 | times 2^n mod 2^128 for every n, also in place |
| Uint256.Shiftr128 | helpers/uint256.c:143-163 | floor division by 2^n for every n, also in place, except that 64 in place gives 0 |
| Uint256.ShiftedInPlace | helpers/uint256.c:146-148 | 2^64 shifted right by 64 in place is 0, where the shift is 1 |
| Uint256.ShiftedInPlaceIff | helpers/uint256.c:146-148 | the 0 left in place by 64 is the shift if and only if the number is below 2^64 |
| Uint256.Shiftl256 | helpers/uint256.c:118-141 | times 2^n mod 2^256 for every n, also in place |
| Uint256.Shiftr256 | helpers/uint256.c:165-188 | floor division by 2^n for every n under the stated aliasing |
| Uint256.Bits128 | helpers/uint256.c:190-207 | the bit length |
| Uint256.Bits256 | helpers/uint256.c:209-228 | the bit length, counted on a copy shifted in place |
| Uint256.SetUint64 | helpers/uint256.c:585-589 | the struct holds the word and nothing else |
| Words.OrIsSum | helpers/uint256.c:514-514 | or is addition when one number is a multiple of a power of two above the other |
| Division.DividingStep | helpers/uint256.c:511-518 | one turn of the loop keeps: divisor * 2^k, quotient bit 2^k, rest below twice the shifted divisor, quotient without lower bits |
| Division.DividingStart | helpers/uint256.c:498-510 | the shift by the difference of bit lengths, corrected by one, establishes it without overflow |
| Division.Divmod128 | helpers/uint256.c:453-486 | terminates with quotient and remainder for every nonzero divisor, results over the operands allowed |
| Division.Divmod256 | helpers/uint256.c:488-522 | the same on 256 bits |
| Multiplication.Schoolbook32 | helpers/uint256.c:317-357 | the columns of 32-bit products are the product up to multiples of 2^128 |
| Multiplication.Mul128 | helpers/uint256.c:317-357 | the product mod 2^128 for all operands and targets |
| Multiplication.Schoolbook64 | helpers/uint256.c:359-451 | the columns of 64-bit products are the product up to multiples of 2^256 |
| Multiplication.Mul256 | helpers/uint256.c:359-451 | the product mod 2^256 plus c * (2^192 - 2^128), where c is the carry out of the third column |
| Multiplication.MulExactIff | helpers/uint256.c:442-442 | for all operands that is their product mod 2^256 if and only if the third column does not carry |
| Multiplication.OneWordFactorsExact | helpers/uint256.c:359-451 | for one-word factors c = 0 and the result is the full product |
| Multiplication.MulGoesWrong | helpers/uint256.c:442-442 | two operands whose product is wrong |
| IntMath.IPow | helpers/math.c:14-26 | base^exp mod 2^64 for all inputs |
| IntMath.PowTenFits | helpers/math.c:14-26 | 10^d fits 64 bits if and only if d <= 19 |
| IntMath.PowTenVanishesIff | helpers/math.c:14-26 | 10^d is 0 mod 2^64 if and only if d >= 64 |
| Bytes.BEOfFromBE | helpers/rlp_encoder.c:101-113 | the minimal big-endian form of a number is unique |
| Rlp.HeaderLen | helpers/rlp_encoder.c:13-24 | 1 up to 55, else 1 plus the bytes of the length |
| Rlp.EncodeIntToBytes | helpers/rlp_encoder.c:36-47 | the minimal big-endian bytes, written from the last one on; nothing else changes |
| Rlp.EncodeItem | helpers/rlp_encoder.c:49-80 | the Yellow Paper's item of the normalised input in all three length branches; nothing else changes |
| Rlp.Forms | helpers/rlp_encoder.c:49-99 | the prefixes of items and lists in every branch, as numbers: a byte below 128 alone, 128 and 192 plus a length up to 55, 183 and 247 plus the length of the length |
| Rlp.EncodeArrayHeader | helpers/rlp_encoder.c:85-99 | the header, long form from 55 on |
| Rlp.HeaderAgreesIff | helpers/rlp_encoder.c:13-24 | header, reserved room and the Yellow Paper agree if and only if the length is not 55 |
| Rlp.PrepareInteger | helpers/rlp_encoder.c:102-113 | the swapped word with its zero bytes shifted out holds the minimal form |
| Rlp.EncodeInteger | helpers/rlp_encoder.c:115-121 | the item of the minimal form of every 64-bit value |
| Rlp.EncodeUint256 | helpers/rlp_encoder.c:123-136 | the item of what each of the three branches reads |
| Rlp.ReadItemInverts | helpers/rlp_encoder.c:49-80 | prefix code: an item followed by any bytes decodes to the item and those bytes |
| Rlp.ReadItemExact | helpers/rlp_encoder.c:49-80 | what the strict decoder reads is the one encoding of it |
| Rlp.ReadListInverts | helpers/rlp_encoder.c:83-99 | the decoder gets the items of every encoded list back |
| Rlp.ReadListExact | helpers/rlp_encoder.c:83-99 | only encodings of lists are decoded |
| Transactions.NumberIsValue | eth/transaction.h:24-24 | the number a value field should carry is the value of the struct |
| Transactions.ValueRightIff | helpers/rlp_encoder.c:123-136 | what is encoded of a value is its minimal big-endian form if and only if it is below 2^64, or needs all 32 bytes and every word reads the same in both byte orders |
| Transactions.ScalarRightIff | helpers/rlp_encoder.c:123-136 | what is encoded of an r or s is its minimal form if and only if its first byte is not 0, or it is one word that reads the same in both byte orders |
| Transactions.ContentsAreFieldsIff | eth/transaction.c:21-60 | what is handed to the encoder is the transaction's numbers and data if and only if value, r and s are right and the data is neither one zero byte nor empty behind a nonzero pointer byte |
| Transactions.ImageIsList | eth/transaction.c:62-67 | unless 55 bytes or too long, the buffer holds the list of the items |
| Transactions.ImageAt55 | eth/transaction.c:63-65 | a payload of 55 bytes never encodes the list |
| Transactions.ImageTooLong | eth/transaction.c:19-24 | when the length does not fit 16 bits, more than 300 bytes are missing |
| Transactions.EncodingIff | eth/transaction.c:15-68 | the output is the Yellow Paper's encoding of the fields, numbers in minimal form, if and only if the transaction is encodable |
| Transactions.RoundTrip | eth/transaction.c:15-68 | a list decoder gets exactly the six or nine fields back |
| Transactions.FieldsInjective | eth/transaction.c:21-60 | equal fields come from equal transactions and signatures, all of them |
| Transactions.EncodingInjective | eth/transaction.c:15-68 | equal encodings come from equal transactions and signatures |
| Transactions.SignedPayload | eth/transaction.c:50-60 | the signed payload is the unsigned one followed by v, r and s |
| Transactions.SignedIsLongIff | eth/transaction.c:50-65 | a signature makes every transaction longer than 55 bytes if and only if its three items have 30 bytes |
| Transactions.LargeScalars | eth/transaction.c:50-60 | they have at least 37 when r and s are at least 2^128 |
| Transactions.NotEncodable | eth/transaction.c:15-68 | a transaction that is not encodable is encoded wrong into every buffer |
| Transactions.FiftyFiveBytes | eth/transaction.c:63-65 | 29 bytes of data and nothing else are encoded wrong |
| Transactions.TooManyBytes | eth/transaction.c:19-24 | so are 2^16 bytes of data |
| Transactions.ValuesMisread | helpers/rlp_encoder.c:131-134 | so are the values 2^64 and 2^128 |
| Transactions.DataMisread | eth/transaction.c:42-46 | so are data of one zero byte and empty data behind a pointer |
| Transactions.ScalarsMisread | helpers/rlp_encoder.c:129-134 | so are signatures whose r starts with a zero byte or is one word |
| Transactions.Transaction.SetValueU64 | eth/transaction.c:80-83 | the value becomes the number, which is encoded right |
| Transactions.Encode | eth/transaction.c:15-68 | buffer and result are the image of the contents, with all 16-bit truncation, for any buffer contents |
| Transactions.SignersNumbers | eth/sign.c:64-72 | v is the byte 64 the signer returned, r and s are the big-endian numbers in bytes 0 to 31 and 32 to 63, and when each of these is encoded right |
| Transactions.FieldsOf | eth/transaction.c:21-60 | the six and the nine fields one by one, in the order in which they are encoded |
| Transactions.EncodeSign | eth/transaction.c:85-97 | the signer is shown the encoding of six fields and the buffer ends with that of nine, each if and only if encodable; decoded, the nine are the fields of the struct and the numbers in byte 64, bytes 0 to 31 and bytes 32 to 63 of what the signer returned |
| HexToBin.Hextobin | helpers/hextobin.c:23-47 | result and bytes for every text: the error cases -1, -2 and -3, and for each pair of digits before the first bad one the byte whose halves are their places in the tables of lower-case or upper-case digits, followed by zeros |
| HexToBin.Hextobin2 | helpers/hextobin.c:49-71 | the same with an odd number of digits allowed, whose first is not counted, and a prefix taken off twice; the result for every text |
| HexToBin.Found2Is | helpers/hextobin.c:49-71 | its result and bytes case by case: as hextobin for an even number, a byte of its own for an odd first digit, nothing behind a bad one |
| HexToBin.MapHexIff | helpers/hextobin.c:15-21 | a digit is mapped to v if and only if it stands at v in the table of lower-case or of upper-case digits |
| HexToBin.FoundAt | helpers/hextobin.c:36-45 | the halves of every byte found are the values of its two digits |
| HexToBin.PairBytesValue | helpers/hextobin.c:36-45 | the bytes denote the number the digits denote |
| HexToBin.BinToHexNoNull | helpers/hextobin.c:73-84 | two lower-case digits for every byte, or an error and no change |
| HexToBin.BinToHex | helpers/hextobin.c:86-94 | the same with a NUL, or an error and no change |
| HexToBin.HexTextAt | helpers/hextobin.c:73-84 | characters 2i and 2i + 1 are those the table of lower-case digits has for the halves of byte i |
| HexToBin.PairBytesOfHexText | helpers/hextobin.c:73-84 | decoding the digits of bytes gives the bytes |
| HexToBin.TerminatesIff | helpers/hextobin.c:36-45 | the 8-bit counter lets the loop end in some round if and only if the text has fewer than 256 digits or a bad one among the first 256 |
| HexToBin.DecodeInvertsHexTextIff | helpers/hextobin.c:23-84 | hextobin ends on what bintohex makes of bytes and gives these bytes back if and only if there are 1 to 127 of them |
| HexToBin.LongTextNeverEnds | helpers/hextobin.c:36-45 | on the text of 128 bytes no round of the loop is the last |
| Uint256Text.ReadIsFromBE | helpers/uint256.c:31-36 | eight shifted bytes or-ed together are the big-endian number |
| Uint256Text.ReadU256BE | helpers/uint256.c:53-56 | the value of 32 big-endian bytes |
| Uint256Text.WriteU256BE | helpers/uint256.c:64-68 | the 32 big-endian bytes of the value; nothing else changes |
| Uint256Text.ReverseString | helpers/uint256.c:524-532 | the first characters in reverse, in place |
| Uint256Text.NumeralDenotes | helpers/uint256.c:559-583 | the text denotes the number, in digits below the base, without a leading zero |
| Uint256Text.NumeralDigits | helpers/uint256.c:570-583 | its digits are from the first of 0123456789abcdef, as many as the base |
| Uint256Text.NumeralLengthIff | helpers/uint256.c:572-575 | k digits suffice if and only if the number is below base^k |
| Uint256Text.ToString256 | helpers/uint256.c:559-583 | the numeral and a NUL exactly when base and length allow; what is left in the buffer otherwise |
| Uint256Text.ToString128 | helpers/uint256.c:534-557 | the same on 128 bits |
| Uint256Text.FromString256 | helpers/uint256.c:598-619 | result and value for every text, and what failure leaves |
| Uint256Text.HexDigitsParse | helpers/uint256.c:598-619 | 1 to 64 digits from the tables of lower-case and upper-case digits, odd or even, with or without 0x, parse to the number their places in the tables denote in base 16 |
| Uint256Text.ParsesIff | helpers/uint256.c:598-619 | exactly which texts are accepted; and that these are the texts of 1 to 64 hex digits if and only if no further 0x stands in one that is hexadecimal without it |
| Uint256Text.InnerPrefixMisread | helpers/uint256.c:598-619 | 0x0x12 is accepted as 0x1200 |
| Uint256Text.FromStringInvertsToString | helpers/uint256.c:559-619 | the hexadecimal text of every 256-bit number parses back, with or without 0x |
| ShellFormat.PrintInt | zephyr-wallet/utils.c:33-56 | the printed text: zero padding, trailing zeros cut, conversion error above 64 decimals |
| ShellFormat.IntTextForms | zephyr-wallet/utils.c:33-56 | what is printed for every format: the conversion error, the decimal digits, these after zeros up to the width, and either without its trailing zeros, of which a first character stays |
| ShellFormat.PrintDecimal | zephyr-wallet/utils.c:69-82 | whole part, point, fraction and newline |
| ShellFormat.PartsAre | zephyr-wallet/utils.c:69-82 | its parts: the decimal digits of the quotient by 10^decimals mod 2^64, and those of the remainder with zeros in front up to the decimals and without trailing ones |
| ShellFormat.FractionValue | zephyr-wallet/utils.c:43-54 | the cut fraction denotes the remainder over 10^decimals and ends in no zero |
| ShellFormat.TwelveForOne | zephyr-wallet/utils.c:75-80 | one token with 20 decimals is printed as 12 tokens and a fraction |
| ShellFormat.PrintedExactlyIff | zephyr-wallet/utils.c:69-82 | the text denotes val / 10^decimals if and only if decimals <= 19 or val is below the wrapped power |
| Fp2Str.TwoGrows | helpers/fp2str.c:32-37 | each round carries one factor 2 more, so the loop ends |
| Fp2Str.FixedToText | helpers/fp2str.c:15-40 | 0 exactly when there is no fraction or text and NUL fit, and the buffer in every case |
| Fp2Str.NextDecimal | helpers/fp2str.c:34-36 | one round prints the decimal cut to 32 - digits bits and keeps the true rest |
| Fp2Str.TrueTextIsExact | helpers/fp2str.c:32-37 | the true decimals are val / 2^digits: digits - v2(fraction) of them, the last a 5 |
| Fp2Str.PrintedDecimals | helpers/fp2str.c:34-36 | every printed decimal is the true one mod 2^(32 - digits) |
| Fp2Str.ExactIff | helpers/fp2str.c:15-40 | the text is exact if and only if the integer is not printed as negative and: with up to 28 digits always, with 29 no product by ten exceeds 32 bits, with 30 there is no fraction |
| Fp2Str.NeverWrapsIff | helpers/fp2str.c:34-35 | no product exceeds 32 bits if and only if every true decimal fits |
| Fp2Str.FractionSafeIff | helpers/fp2str.c:32-37 | never with up to 28 digits, and with 30 always once there is a fraction |
| Fp2Str.FirstWraps | helpers/fp2str.c:34-36 | a first product that wraps makes the text wrong |
| Fp2Str.NineIsLost | helpers/fp2str.c:34-36 | with 29 digits 15/16 is printed wrong |
| Fp2Str.LargeIsNegative | helpers/fp2str.c:18-22 | with 0 digits 2^31 is printed as a negative number |
| AbiData.ItemsApart | eth/data.c:18-21 | replacing one item changes no other item and not the selector |
| AbiData.ItemPlace | eth/data.c:18-21 | item i is the bytes 4 + 32i to 35 + 32i, and replacing it leaves those before and behind it as they were |
| AbiData.DataBlock.ItemClear | eth/data.c:51-55 | bytes 4 + 32 idx to 35 + 32 idx are zero, all before and behind as before |
| AbiData.DataBlock.EncodeUint | eth/data.c:58-66 | bytes 4 + 32 idx to 35 + 32 idx are the 32-byte big-endian form, all before and behind as before |
| AbiData.DataBlock.EncodeUint256 | eth/data.c:79-88 | bytes 4 + 32 idx to 35 + 32 idx are the struct's memory, all before and behind as before |
| AbiData.DataBlock.DecodeUint | eth/data.c:111-117 | the big-endian number in bytes 28 + 32 idx to 35 + 32 idx |
| AbiData.DecodeInvertsEncode | eth/data.c:58-117 | decode_uint inverts encode_uint |
| AbiData.EncodeAmount | zephyr-wallet/erc20_shell.c:146-156 | bytes 4 + 32 idx to 35 + 32 idx are the big-endian product of the amount and 10^decimals mod 2^64, all before and behind as before |
| AbiData.OneTokenWrong | zephyr-wallet/erc20_shell.c:146-156 | one token with 20 decimals is scaled wrong |
| AbiData.AmountExactIff | zephyr-wallet/erc20_shell.c:146-156 | it is amount * 10^decimals if and only if decimals <= 19 or the amount is 0 |
| Web3Reply.ReadErrorObject | eth/web3_jsonp.c:74-96 | result, code, message and the text with its NULs after the loop over an error object |
| Web3Reply.ReadResult | eth/web3_jsonp.c:121-144 | result and reading after the loop over the tokens, errors included |
| Web3Reply.Uint256Hex | eth/web3_jsonp.c:63-72 | the value of the token's text, and what failure leaves |
| Web3Reply.ReadValues | eth/web3_jsonp.c:161-170 | result and value after the loop over the results |
| Web3Reply.ParsedWithin | eth/web3_jsonp.c:152-153 | every token of a parsed text lies in the text |
| Web3Reply.DecodeHexEncoded | eth/web3_jsonp.c:146-171 | result, reading, text and value of the whole decoder, on every text on which it stays inside its arrays, whatever its token array held before |
| Web3Nodes.NodesAt | helpers/jsmn.c:151-303 | the tokens of a printed value are those of its nodes, in the order of the text |
| Web3Nodes.TokensApart | helpers/jsmn.c:151-303 | no token ends within a leaf or where a bracket pair starts |
| Web3Nodes.KeptEnded | eth/web3_jsonp.c:91-92 | so a NUL behind a token changes no leaf and no opening bracket |
| Web3Nodes.NameAt | helpers/jsmn_utils.c:14-21 | in the text with NULs, comparing a token with a name is comparing the node with it |
| Web3Nodes.NumberAt | eth/web3_jsonp.c:21-47 | strtoul and strtol find at a token what they find in its text alone, whatever is behind it |
| Web3Nodes.NumberClasses | eth/web3_jsonp.c:21-47 | the digits and the six blanks that strtoul and strtol skip, as lists of characters |
| Web3Nodes.NumeralForms | eth/web3_jsonp.c:21-47 | blanks, at most one sign and digits are a numeral, with the value of the digits |
| Web3Nodes.UintTextIff | eth/web3_jsonp.c:21-33 | which texts read as an unsigned number: the empty one, and numerals that fit; and the number stored for every numeral, wrapped below zero and cut at the maximum |
| Web3Nodes.IntTextIff | eth/web3_jsonp.c:35-47 | the same for signed numbers |
| Web3Nodes.HexAt | eth/web3_jsonp.c:63-72 | the reader of 256-bit numbers too sees the text of the node, for tokens that fit its buffer |
| Web3ReplyTree.ErrorReadPasses | eth/web3_jsonp.c:82-93 | a regular error object is passed if and only if codes are numbers that fit, messages are leaves and all else are strings |
| Web3ReplyTree.ErrorLoopIs | eth/web3_jsonp.c:74-96 | what the loop over a regular error object returns and leaves: last code, last message, a NUL behind every message, or all up to the first fault |
| Web3ReplyTree.IdLoopIs | eth/web3_jsonp.c:132-142 | the same for the first loop over the tokens of a regular reply |
| Web3ReplyTree.ReadFromPasses | eth/web3_jsonp.c:132-142 | it ends well if and only if behind every "id" stands a number and behind every "error" an error object |
| Web3ReplyTree.ReadFromLast | eth/web3_jsonp.c:132-142 | and then leaves the last of these numbers and the last code in these objects |
| Web3ReplyTree.ValueLoopIs | eth/web3_jsonp.c:161-169 | the last loop ends well if and only if behind every "result" stands a hexadecimal text, with the number of the last |
| Web3ReplyTree.ReplyDecodes | eth/web3_jsonp.c:121-171 | every regular reply, in any whitespace, order and depth: 0 if and only if behind every name, be it a key or a value, stands something of its kind; the whole outcome then, and the reading in every case |
| Web3ReplyTree.FirstFaultRefuses | eth/web3_jsonp.c:133-141 | the first name with something else behind it refuses the reply, whatever follows |
| Web3ReplyTree.DecodedRightIff | eth/web3_jsonp.c:121-171 | 0 with the reply's own id and result if and only if the reply is accepted and the ids and results that stray behind these two, deeper down or behind values, end in the same numbers or are none |
| Web3ReplyTree.ErrorDecodedRightIff | eth/web3_jsonp.c:121-171 | the same for id and error code |
| Web3ReplyTree.OrderlyMembersAccepted | eth/web3_jsonp.c:121-171 | replies without names as values, with members of their kinds, are accepted |
| Web3ReplyTree.OneIdOneResult | eth/web3_jsonp.c:121-171 | with one id and one result, wherever they stand, these are decoded and 0 is returned |
| Web3ReplyTree.NameAsValueRefused | eth/web3_jsonp.c:138-141 | a value "id" of the first member, in front of a key that cannot begin a number, makes the decoder refuse the reply with id 0, whatever follows |
| Web3ReplyRefused.UnreadableRefused | eth/web3_jsonp.c:148-153 | a text that is not spelled by lexemes with balanced brackets and at most 64 tokens is refused with -1; reading, text and value stay as they were |
| Web3ReplyRefused.TruncatedRefused | eth/web3_jsonp.c:152-153 | so is the reply cut after its first brace |
| Web3ReplyRefused.PrintedTooLong | eth/web3_jsonp.c:148-153 | so is every printed value of more than 64 nodes |
| Web3ReplyRefused.NoObjectRefused | eth/web3_jsonp.c:121-127 | so is every readable text whose first token is no object |
| Web3ReplyRefused.PrintedNoObject | eth/web3_jsonp.c:121-127 | so is every printed array or leaf |
| Web3ReplyRefused.NothingAsserted | eth/web3_jsonp.c:121-127 | a text without a token fails the assertion of the source |
| Web3ReplyMisread.DeeperIdWins | eth/web3_jsonp.c:132-142 | a reply to request 1 with an id of 2 deeper down is read as a reply to request 2 |
| Web3ReplyMisread.NamesAsValuesWin | eth/web3_jsonp.c:132-169 | values "id" and "result" in front of keys that are numbers change the id and the result |
| Web3ReplyMisread.LastNameReadsStack | eth/web3_jsonp.c:138-140 | with a name as the last token the same text is accepted or refused, as the memory behind the tokens was |

## Left out

- Signing, hashing and key derivation (eth/sign.c, eth/address.c): thin calls into a library that is not part of this model; a signer is any function from bytes to 65 bytes.
- Sawtooth and fish-supply encoders: callbacks over a library and generated headers that are not part of this model.
- Shells, HTTP, LWM2M, SNTP, sensors and the upload thread: input, output and kernel calls.
- Request printing (eth/web3.c), receipts (`__json_txreceipt`) and generated contract code (abi_compiler).
- `JSMN_STRICT` and `JSMN_PARENT_LINKS`: the default build has neither.
- `readu64LE`, `set256_uint64BE`, `encode_uint128`, `encode_address`, `encode_data`: would only add easy members.
- Jsmn.Parser.Parse: positions are unbounded, so texts of 2^31 characters and more, whose offsets would not fit the token's int, are not captured.
- Transactions.Encode: data up to 2^32 - 6 bytes; the bytes behind the structs that the code reads are a parameter, and so is the lowest byte of the data pointer.
- Division.Divmod256: without a nonzero divisor the loop of the source does not end.
- HexToBin.Hextobin: texts of 256 digits and more, on which the 8-bit counter never reaches the end, are excluded.
- Uint256Text.ToString256: the buffer needs one character more than the length for the NUL, as the source writes it there.
- ShellFormat.PrintInt: values of more than 64 digits overrun the source's buffer and are excluded.
- ShellFormat.PrintDecimal: 64 and more decimals divide by 0; the two print channels of the source are one sequence here.
- Fp2Str.FixedToText: more than 30 digits shift an int into its sign and are excluded; snprintf follows its contract in the C standard.
- Web3Reply.DecodeHexEncoded: runs on which the source reads outside its token array, its text or its buffer of 68 characters, or fails its assertion on an empty text. strtoul and strtol follow their contracts in the C standard, and the end of the text stops them.
- Web3ReplyTree.ReplyDecodes: replies that are not regular, whose keys and values the loop over an error object takes for each other or whose outcome depends on stale memory; what the loops do on them is stated token by token in Web3Reply. Where a result is refused, the number left in the struct is not stated.
- Long functions of the source are cut into several methods here, each with its own contract; the order of their steps is the source's.
