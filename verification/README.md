# Verified models of sp0rkle's engines

sp0rkle is an IRC bot. This project models the parts of it that compute
something hard to get right, and proves what they are for. The models keep the
form of the source: routines with loops and updated fields are methods of
classes with those fields, proved against specification functions; the
properties are lemmas about those functions.

`dafny verify dfyconfig.toml` checks everything.

## The engines

* **Decimal128** (`Words`, `Numerals`, `DecimalFormat`, `DecimalPrint`,
  `DecimalLiteral`, `DecimalParse`, `DecimalRoundTrip`, `DecimalExact`,
  `DecimalSyntax`, `DecimalNotation`). Numbers of IEEE 754-2008 section 3.5.2, with binary significand, in two
  64-bit words. The printer writes digits backwards into a 48-byte buffer and
  decides on the way where the point goes; the parser gathers nine digits at a
  time. Both are proved equal to short specifications, and those are proved to
  be inverse to each other and exact, with exact conditions. What may be
  written and what is printed are relations of their own, between text and
  number, and so are the bits.
* **Calculator** (`CalcTokens`, `CalcShunt`, `CalcEval`, `CalcMeaning`,
  `CalcExact`, `CalcGrammar`, `CalcAccept`, `CalcConserve`). The shunting-yard
  conversion and the evaluator, over any number type and any meaning of its
  operators. Expression trees are printed with as few parentheses as precedence
  allows, compiled, and evaluated to their own value; so are the sums, products
  and powers of a grammar that knows nothing of the precedence table.
* **BSON** (`Bytes`, `BsonValue`, `BsonEncode`, `BsonDecode`,
  `BsonRoundTrip`, `BsonLocal`, `BsonFormat`, `BsonWritten`, `BsonRead`). The
  `document` and `element` productions of the BSON Specification version 1.1 for
  ordered documents, with the encoder's back-patched lengths and the decoder's
  cursor over arbitrary bytes. The productions are relations between bytes and
  values in `BsonFormat`; the encoder writes and the decoder reads exactly what
  they say.
* **Indexed store** (`ByteOrder`, `DbKeys`, `DbBuckets`, `DbStore`, `DbRuns`,
  `DbReads`, `DbPrefixFree`, `DbScan`, `DbAll`, `DbOrder`, `DbFsck`,
  `DbObsolete`, `Seen`). A value table and a tree of index buckets, kept in step
  by every operation; what is read is what was written last; lookups agree with
  a linear scan and have a fixed order; what the consistency check repairs, and
  that it does not get that far.
* **Markov chains** (`MarkovStore`, `MarkovRuns`, `MarkovWalk`,
  `MarkovChance`), **draws without replacement** (`PseudoRand`), **dates**
  (`Calendar`, `DateLexer`, `DateResolve`), **escaped text** (`Lexer`,
  `Unescaping`) and **pollers** (`Pollers`).

Bits: the source combines disjoint bit fields with a bitwise or; the model adds
them. Words, wrapping conversions and truncating divisions are written out.
Random numbers are a function that is passed in, so that results are what the
numbers mean and properties hold for all of them.

## Findings

Where the code does not do what its documentation or its purpose suggests, the
model follows the code and a lemma says exactly when it is right.

* The multiplication routine's carry is wrong when the product exceeds 128
  bits, and the loop for exponents above the range runs into that: it accepts
  some literals with a wrong coefficient. Without an `E` part the exponent is
  not range-checked, and its field wraps. `DecimalExact.ParseExactIff` has the
  exact condition for both, `DecimalExact.ClampLosesTopWord` and
  `DecimalExact.UncheckedExponentWraps` have a string for each.
* Printing and parsing is also the identity for 35-digit multiples of ten at
  the greatest exponent, because the clamping loop undoes the rounding
  (`DecimalRoundTrip.RoundTrip`).
* While it counts commas, the calculator takes a call without arguments for one
  with a single argument (`CalcMeaning.ShuntTree`); such an expression is
  refused later, for want of a number (`CalcExact.MeaningIff`).
* The calculator also takes lists that are no expressions: operators behind
  their numbers are one kind (`CalcAccept.PostfixAccepted`). Parentheses, commas
  and the count of numbers must fit all the same (`CalcAccept.ConvertsIff`,
  `CalcAccept.AnswerCounts`).
* The second pass of the consistency check unmarshals stored bytes without
  stripping their tag, and the first one cannot get past a nested index bucket.
  Unless the collection has a validator that ends the check early, the check
  therefore fails on every table with a value in it and on every index with a
  bucket in it (`DbFsck.FsckSucceedsIff`).
* A put checks the length of the object id; a batch of puts does not, so that
  an empty id goes through where the type leaves it out of the document
  (`DbPrefixFree.SucceedsIff`).
* A deletion that does not reach, among the keys it is given, all entries of
  the value leaves entries that point nowhere (`DbStore.DelKeepsSoundIff`).
* Time keys of times before 1970 sort behind all later ones
  (`Seen.TimeKeysSortIff`).
* URLs in a text leave words without followers, so that walks can fail for want
  of links: `MarkovWalk.StrandedIff` says which ones, from the texts alone, and
  `MarkovRuns.FlowConservedIff` says when flow is conserved all the same. The
  error for not enough data cannot occur (`MarkovWalk.NeverNotEnough`).
* "This March" is not always the closest March (`DateLexer.ClosestMonthIff`),
  and the second Monday of February is looked for in March when today's day of
  the month does not exist in February (`DateLexer.CountedInMonthIff`).
* An edit command needs no delimiters at all if its delimiter is missing: a
  lone "s" is accepted (`Lexer.EditAcceptedIff`).
* Adding a poller twice while connected leaves a worker nobody can stop
  (`Pollers.AddOutcome`).

## Model

| member | source | states |
|---|---|---|
| Words.DivMod | util/bson/decimal.go:122-137 | the four quotient digits fit their 32-bit halves and the remainder is below the divisor |
| Words.DivModIsDivision | util/bson/decimal.go:122-137 | for all words and any positive divisor, quotient and remainder are the mathematical ones of the 128-bit number |
| Words.MulAdd | util/bson/decimal.go:297-310 | product plus summand, modulo 2^128, is the 128-bit result; the third component is a 32-bit carry |
| Words.MulAddExactIff | util/bson/decimal.go:297-310 | result and carry together are the exact value if and only if the product alone is below 2^128; the word above that is masked off without a trace |
| DecimalFormat.ChunkStep | util/bson/decimal.go:80-109 | taking one digit off the current nine-digit chunk is the next digit of the whole number, across chunk borders |
| DecimalFormat.CompletePointed | util/bson/decimal.go:83-119 | text with a point and no digits pending, with its exponent part, is the whole numeral in plain or scientific form |
| DecimalPrint.ChunkGuard | util/bson/decimal.go:85 | the test on both words and the chunk holds exactly when only the leading digit is left |
| DecimalPrint.PlacePoint | util/bson/decimal.go:84-91 | the point goes in exactly where plain or scientific notation wants it |
| DecimalPrint.FinishSingle | util/bson/decimal.go:96-100 | the early exit for one digit leaves a complete numeral |
| DecimalPrint.FinishDigits | util/bson/decimal.go:104-107 | the ordinary early exit leaves a complete numeral |
| DecimalPrint.RenderStep | util/bson/decimal.go:83-107 | one turn of the inner loop on the 48-byte buffer keeps what was written and extends it by a point, a digit, or both |
| DecimalPrint.RenderChunk | util/bson/decimal.go:80-109 | one nine-digit chunk keeps the relation between buffer, exponent and what is still to be written |
| DecimalPrint.Signed | util/bson/decimal.go:110-119 | the sign goes just in front of the text and is cut off for positive numbers |
| DecimalPrint.RenderDigits | util/bson/decimal.go:75-119 | the five chunks suffice for every 113-bit coefficient and produce exactly the scientific string of sign, coefficient and exponent |
| DecimalPrint.ToString | util/bson/decimal.go:40-120 | for every pair of words the text is the format of the value they encode: NaN, infinities, the second encoding read as zero, and the scientific string otherwise |
| DecimalLiteral.KeptBound | util/bson/decimal.go:192-202 | the at most 34 digits that are kept denote a number below 10^34 and so below 2^113 |
| DecimalLiteral.FitBound | util/bson/decimal.go:178-284 | whatever is accepted leaves a coefficient of at most 113 bits |
| DecimalParse.TooWideIff | util/bson/decimal.go:183 | the mask test on the high word holds exactly for coefficients of more than 113 bits |
| DecimalParse.DigitStep | util/bson/decimal.go:187-204 | one more digit is kept, or is a zero beyond the 34th that raises the exponent, or makes the literal inexact |
| DecimalParse.AccumulateDigit | util/bson/decimal.go:200-203 | (h, l) * mul + add stays the number denoted by the digits kept so far |
| DecimalParse.FlushFits | util/bson/decimal.go:180-186 | moving a chunk into the words never overflows, so those two error exits are never taken |
| DecimalParse.ScanDigits | util/bson/decimal.go:170-232 | the scanning loop, with its nine-digit chunks, point and rounding rules, finds exactly the digits of the literal's grammar or rejects it |
| DecimalParse.ScanExponent | util/bson/decimal.go:242-251 | the exponent loop consumes the text exactly when it is a digit string that stays below 10000 before its last digit |
| DecimalParse.FoldLow | util/bson/decimal.go:256-268 | dividing by at most 10^9 at a time equals one exact division by the missing power of ten, and fails exactly when that leaves a remainder |
| DecimalParse.FoldHigh | util/bson/decimal.go:269-280 | the clamping loop equals repeated multiplication modulo 2^128 with a 113-bit test |
| DecimalParse.ReadExponent | util/bson/decimal.go:233-284 | the exponent part is read and folded in as the grammar and the range rules say |
| DecimalParse.ParseDecimal128 | util/bson/decimal.go:147-295 | the imperative parser returns for every string what the specification says, whose signs, names, numerals and bits are those of DecimalSyntax |
| DecimalRoundTrip.Fields | util/bson/decimal.go:57-68 | sign, exponent field and coefficient can be read back from the packed high word |
| DecimalRoundTrip.InterpretPack | util/bson/decimal.go:290-294 | a packed value means the sign, coefficient and exponent that went into it |
| DecimalRoundTrip.PackInterpret | util/bson/decimal.go:45-68 | every ordinary encoding is the packing of its own meaning |
| DecimalRoundTrip.ReadUnsigned | util/bson/decimal.go:178-284 | the parser reads each printed form as the literal it was printed from |
| DecimalRoundTrip.ParseShort | util/bson/decimal.go:147-295 | a printed number of up to 34 digits parses to the ordinary encoding of the same sign, coefficient and exponent |
| DecimalRoundTrip.ParseLong | util/bson/decimal.go:192-199 | a printed number of 35 digits loses its last digit to the exponent or is rejected |
| DecimalRoundTrip.RoundTrip | util/bson/decimal.go:40-295 | printing and then parsing gives back the same two words if and only if the value is canonical: every sign, exponent and zero with a coefficient below 10^34, the infinities and the plain NaN (and one more family, see Findings) |
| DecimalRoundTrip.PrintThenParse | util/bson/decimal.go:40-295 | the two imperative routines one after the other return the input words exactly for canonical values |
| DecimalExact.KeptValue | util/bson/decimal.go:192-199 | digits rounded away only move into the exponent: the rational value stays |
| DecimalExact.FoldLowValue | util/bson/decimal.go:256-268 | the subnormal loop keeps coefficient times power of ten unchanged |
| DecimalExact.ClampFits | util/bson/decimal.go:269-280 | the clamping loop keeps the value if and only if the full product fits in 113 bits |
| DecimalExact.ParseExactIff | util/bson/decimal.go:147-295 | an accepted literal keeps its sign, which DecimalSyntax.SignIff reads off the text, and its exact rational value if and only if the stated condition on exponent and product holds |
| DecimalExact.LostProduct | util/bson/decimal.go:269-280 | a coefficient and exponent for which the loop leaves a small remainder of a product beyond 128 bits |
| DecimalExact.ClampLosesTopWord | util/bson/decimal.go:147-295 | a concrete string that the parser accepts with a wrong value, because the clamping loop loses the top word |
| DecimalExact.UncheckedExponentWraps | util/bson/decimal.go:230-233 | a string without an E part that the parser accepts and whose exponent field wraps around |
| DecimalExact.RepresentableAccepted | util/bson/decimal.go:178-284 | every literal with a written exponent that denotes a decimal128 number is accepted, with its exact value |
| DecimalSyntax.ExponentRead | util/bson/decimal.go:233-254 | an exponent written as e or E, a sign or none, and digits is read as that number, negated for a minus sign |
| DecimalSyntax.NumeralRead | util/bson/decimal.go:170-254 | whole digits, a point, digits behind it and an exponent, put together in any of the permitted ways, are read as exactly these parts |
| DecimalSyntax.LiteralIff | util/bson/decimal.go:170-254 | a text is read as a literal if and only if it is such a concatenation showing that literal |
| DecimalSyntax.NameIff | util/bson/decimal.go:157-168 | NaN, Inf and Infinity in any mixture of cases, and nothing else, are the names, with the words of 0x7C, 0x78 and 0xF8 in front |
| DecimalSyntax.PlusIgnored | util/bson/decimal.go:152-155 | a plus sign in front of a text without a sign changes nothing |
| DecimalSyntax.MinusNegates | util/bson/decimal.go:152-155 | a minus sign sets the sign bit and changes nothing else; a NaN stays as it is |
| DecimalSyntax.SignIff | util/bson/decimal.go:152-155 | whatever is accepted and is no NaN is negative if and only if its text begins with a minus sign |
| DecimalSyntax.AcceptedForm | util/bson/decimal.go:147-295 | every accepted string is a name or a well-formed numeral behind at most one sign |
| DecimalSyntax.StoredAsWritten | util/bson/decimal.go:147-295 | a numeral of at most 34 digits with an exponent in range becomes exactly its sign, its digits and its last place |
| DecimalSyntax.ExactlyRoundedIff | util/bson/decimal.go:192-199 | the digits are rounded without loss if and only if they are a number below 10^34 times a power of ten |
| DecimalSyntax.AcceptedIff | util/bson/decimal.go:147-295 | up to the greatest exponent, a numeral is accepted if and only if it is at most 34 digits and zeros, and has only zeros below the least exponent, which is not looked at without a written exponent |
| DecimalSyntax.OneWords | util/bson/decimal.go:147-295 | an instance: the two words of 1 |
| DecimalSyntax.PointedWords | util/bson/decimal.go:147-295 | an instance: the two words of +12.5E+3 |
| DecimalSyntax.SmallWords | util/bson/decimal.go:147-295 | an instance: the two words of -.007e-2 |
| DecimalSyntax.OrdinaryBits | util/bson/decimal.go:57-68 | bit by bit: sign, 14 bits of exponent biased by 6176, and 113 of coefficient |
| DecimalSyntax.SecondFormBits | util/bson/decimal.go:57-63 | the second form with its two leading ones, whose coefficient counts as zero |
| DecimalSyntax.SpecialBits | util/bson/decimal.go:45-53 | the bits of infinities and NaNs |
| DecimalNotation.OneNumeral | util/bson/decimal.go:75-119 | a number has one numeral without leading zeros |
| DecimalNotation.FormatIff | util/bson/decimal.go:40-120 | the printed text of a value is the one text with the required notation: digits and point alone from 10^-6 up with no positive exponent, and otherwise one digit, the others behind a point, E, a sign and the power of the first digit |
| DecimalNotation.PrintNotation | util/bson/decimal.go:40-120 | the printing routine against that notation |
| CalcTokens.TokenStack.Push | util/calc/calc.go:304-307 | the token is added on top |
| CalcTokens.TokenStack.Pop | util/calc/calc.go:309-317 | the top is removed and returned, an empty stack is an error and stays as it is |
| CalcTokens.TokenStack.GetNums | util/calc/calc.go:326-338 | the top n numbers in stack order, or an error at the first token that is no number |
| CalcShunt.PopLoop | util/calc/calc.go:391-401 | everything above the last left parenthesis moves to the output; none is an error |
| CalcShunt.ShuntStep | util/calc/calc.go:366-433 | one step on the three stacks refines the step function |
| CalcShunt.ShuntAll | util/calc/calc.go:343-363 | the whole conversion refines the shunt function |
| CalcShunt.FeedAppend | util/calc/calc.go:350-354 | reading two token lists one after the other is reading their concatenation |
| CalcEval.Calc | util/calc/calc.go:437-465 | the evaluation loop refines the evaluator on token lists |
| CalcEval.CalcTokenList | util/calc/calc.go:479-485 | conversion followed by evaluation; what that means is CalcGrammar.ComputeIsGrammar |
| CalcEval.TakeKeepsNums | util/calc/calc.go:326-338 | the evaluation stack only ever holds numbers |
| CalcMeaning.PendingGivesWay | util/calc/calc.go:372-384 | all operators that a left operand left pending give way to the operator after it |
| CalcMeaning.StepOperator | util/calc/calc.go:372-385 | an operator after its left operand flushes exactly what that operand left behind and nothing below it |
| CalcMeaning.StepComma | util/calc/calc.go:416-431 | a comma flushes its argument and is counted for the innermost call |
| CalcMeaning.StepClose | util/calc/calc.go:391-415 | the closing parenthesis of a call checks the count and emits the function |
| CalcMeaning.FeedExpr | util/calc/calc.go:366-433 | reading the infix form of any tree adds its pending operators to the stack and the rest of its postorder to the output, or fails exactly when a call's count does not fit |
| CalcMeaning.ShuntTree | util/calc/calc.go:343-465 | for every expression tree, compiling its minimally parenthesised infix form gives its postorder, or an error exactly if some call has the wrong number of arguments |
| CalcMeaning.RunTree | util/calc/calc.go:437-465 | running the postorder of a tree pushes its directly computed value |
| CalcMeaning.Meaning | util/calc/calc.go:343-465 | compiling and evaluating the infix form computes the value of the tree |
| CalcExact.RunNet | util/calc/calc.go:437-465 | a postfix list that runs to its end changes the number of numbers on the stack by its net effect, and known functions never crash it |
| CalcExact.MeaningIff | util/calc/calc.go:343-486 | for every tree, compiling and evaluating its infix form computes its value if every call has the arguments its function takes, and is a syntax error otherwise |
| CalcMeaning.Grouping | util/calc/calc.go:31-49 | for every two operators, by name, how a op1 b op2 c groups: powers before products before sums, equals to the left, powers to the right |
| CalcGrammar.SumInfix | util/calc/calc.go:343-465 | the tokens of a sum of products of powers, by a grammar with those three levels, are those of its operator tree without any further parentheses |
| CalcGrammar.ArityIff | util/calc/calc.go:104-133 | the functions of one and of two arguments |
| CalcGrammar.ComputeIsGrammar | util/calc/calc.go:471-486 | for every expression of the grammar, the calculator computes the number it means, level by level, if every call has its arguments, and reports a syntax error otherwise |
| CalcGrammar.CalcSum | util/calc/calc.go:471-486 | the same for the routine itself |
| CalcAccept.ConvertsIff | util/calc/calc.go:343-433 | what converts has known tokens, balanced parentheses and commas inside of them alone; without function calls that is all it takes |
| CalcAccept.AnswerCounts | util/calc/calc.go:471-486 | an answer comes only from one number more than the operators and functions of the input use up |
| CalcAccept.PostfixAccepted | util/calc/calc.go:343-363 | an instance: two numbers and an operator behind them are taken, too |
| CalcConserve.StepConserves | util/calc/calc.go:366-433 | every successful step keeps each number, operator and function exactly once on stack or output, and the numbers in order |
| CalcConserve.ShuntConserves | util/calc/calc.go:343-363 | on every token list that converts, the output is a permutation of its numbers, operators and functions and keeps the numbers in input order |
| Bytes.SignedBack | util/bson/encode.go:497-506 | a stored 32- or 64-bit integer reads back as itself, or wrapped to that width |
| BsonEncode.Encoder.ReserveInt32 | util/bson/encode.go:484-488 | four zero bytes are appended and their position returned |
| BsonEncode.Encoder.SetInt32 | util/bson/encode.go:490-495 | exactly the four bytes at the position are overwritten, little end first |
| BsonEncode.Encoder.AddBytes | util/bson/encode.go:512-514 | bytes are appended |
| BsonEncode.Encoder.AddStr | util/bson/encode.go:474-477 | length, text and NUL are appended |
| BsonEncode.Encoder.AddBinary | util/bson/encode.go:461-472 | length and subtype, and the inner length of subtype 2 |
| BsonEncode.Encoder.AddDoc | util/bson/encode.go:84-128 | the bytes of the framed document are appended, with its patched-in length; it gives up exactly on a wrong object id |
| BsonEncode.Encoder.AddArray | util/bson/encode.go:203-239 | the framed items are appended, named by their decimal index |
| BsonEncode.Encoder.AddElem | util/bson/encode.go:241-456 | kind, name and payload are appended; which bytes those are is BsonWritten.ElementWritten |
| BsonEncode.Encoder.AddScoped | util/bson/encode.go:424-434 | code with scope and the length patched in front of both |
| BsonEncode.Patched | util/bson/encode.go:484-495 | patching the reserved bytes puts the length in front of the body and changes nothing else |
| BsonEncode.Marshal | util/bson/encode.go:84-128 | the bytes of the whole document, or nothing exactly when some object id inside does not have twelve bytes; they are a BSON document by BsonWritten.DocumentWritten |
| BsonWritten.IndexIff | util/bson/encode.go:233-235 | the names of array items are the decimal numerals of their indices, without leading zeros |
| BsonWritten.ValueWritten | util/bson/encode.go:247-459 | for every value, a type byte and bytes are those of the BSON Specification for the value, by literal type codes and little-endian lengths, if and only if they are the ones that are written |
| BsonWritten.ElementWritten | util/bson/encode.go:241-459 | the same for an element: type, name, NUL, value |
| BsonWritten.DocumentWritten | util/bson/encode.go:84-128 | bytes are the document with given elements, as the specification's productions say, if and only if they are what the encoder writes |
| BsonWritten.MarshalDocument | util/bson/encode.go:84-128 | the encoder as a method against the productions: the only bytes that are the document, or none if there are none |
| BsonValue.MillisBack | util/bson/encode.go:436-439 | every stored millisecond count, before 1970 too, survives reading and storing again |
| BsonValue.NormIdempotent | util/bson/encode.go:436-439 | what was read back once is kept bit for bit from then on |
| BsonDecode.ReadBytes | util/bson/decode.go:839-849 | a slice inside the input and the cursor behind it, or corruption for a negative or too large count |
| BsonDecode.CStrStops | util/bson/decode.go:779-793 | the text runs up to the first NUL, the cursor goes behind it, and only a missing NUL is corruption |
| BsonDecode.StrIff | util/bson/decode.go:770-777 | a string is read if and only if its declared length, less one and wrapped to 32 bits, is the number of bytes in front of a NUL within the input |
| BsonDecode.ReadEnd | util/bson/decode.go:405-412 | the declared end lies inside the input, behind the length, and has a NUL in front of it |
| BsonDecode.ReadElem | util/bson/decode.go:440-560 | for every input and kind, the cursor moves forward within the input or the input is corrupt |
| BsonDecode.ExactConsumption | util/bson/decode.go:405-429 | a document that decodes was consumed exactly up to its declared end, which lies inside the input |
| BsonDecode.ArrayConsumption | util/bson/decode.go:325-358 | an array that decodes was consumed exactly up to its declared end, too |
| BsonLocal.ElemLocal | util/bson/decode.go:440-560 | what one element decodes to depends only on the bytes up to where the cursor stops |
| BsonLocal.DecodingIsLocal | util/bson/decode.go:405-429 | a document decodes alike from every input that has the same bytes up to its declared end |
| BsonDecode.DropMovesAsRead | util/bson/decode.go:433-438 | dropping an element moves the cursor exactly as far as decoding it and fails exactly when decoding fails |
| BsonDecode.Decoder.NextBytes | util/bson/decode.go:839-849 | the cursor method does what the reading function says and never indexes outside the input |
| BsonDecode.Decoder.NextStr | util/bson/decode.go:770-777 | likewise for strings |
| BsonDecode.Decoder.NextCStr | util/bson/decode.go:779-793 | likewise for NUL-terminated strings, by the loop over their bytes |
| BsonDecode.Decoder.NextBinary | util/bson/decode.go:758-768 | likewise for binary data, with the inner length of subtype 2 |
| BsonDecode.Decoder.NextElem | util/bson/decode.go:440-560 | likewise for one element of any kind |
| BsonDecode.Decoder.NextFields | util/bson/decode.go:413-429 | the element loop of a document, with its termination |
| BsonDecode.Decoder.NextDoc | util/bson/decode.go:371-386 | an ordered document |
| BsonDecode.Decoder.NextArray | util/bson/decode.go:325-358 | an array |
| BsonDecode.Decoder.SkipElem | util/bson/decode.go:431-438 | dropping an element moves the cursor as the dropping function says |
| BsonDecode.Decoder.SkipDoc | util/bson/decode.go:228-281 | walking a document without building anything |
| BsonDecode.Unmarshal | util/bson/decode.go:128-281 | decoding from the front of any byte sequence: the document or corruption; which bytes are which document is BsonRead.DocumentRead |
| BsonRead.StringRead | util/bson/decode.go:770-777 | a string is read from exactly its length, its bytes and its NUL |
| BsonRead.ValueRead | util/bson/decode.go:440-560 | for every type byte and input, a value is read up to a position if and only if the bytes up to there are that value, by literal type codes |
| BsonRead.ElementRead | util/bson/decode.go:405-438 | an element is read from exactly its type, its name up to the first NUL, and its value |
| BsonRead.DocumentRead | util/bson/decode.go:371-429 | for every input, a document is read up to a position if and only if the bytes up to there are that document, item names and the outer length of scoped code aside |
| BsonRead.UnmarshalDocument | util/bson/bson.go:505-524 | the decoder as a method: the one document the input begins with, or corruption if and only if it begins with none |
| BsonRead.WrittenIsAccepted | util/bson/bson.go:463-524 | written documents are accepted, as the one value of the round trip |
| BsonRoundTrip.ValueBack | util/bson/decode.go:440-560 | every good value reads back as its normal form wherever its bytes stand in an input |
| BsonRoundTrip.DocBack | util/bson/decode.go:371-429 | every good document, at any nesting depth, reads back field by field in order and is consumed completely |
| BsonRoundTrip.DocumentRoundTrip | util/bson/decode.go:371-429 | decoding the encoding gives the normal form of the document and stops right behind it, whatever follows |
| BsonRoundTrip.PatchedLength | util/bson/encode.go:84-128 | the length in front of a document is its number of bytes, and the document ends in NUL |
| BsonRoundTrip.EncodeThenDecode | util/bson/bson.go:463-524 | the encoder and the decoder, as methods, one after the other |
| DbKeys.ElemBytes | db/db.go:68-168 | the bytes of an element are never empty, so no bucket name is |
| DbKeys.ValidKeysDoNotCollide | db/db.go:205-219 | valid keys with the same bytes agree element by element in name and value |
| DbKeys.ValidIff | db/db.go:205-219 | the check refuses exactly the keys that have the bytes of a valid key with other names |
| DbReads.KeyBytes | db/db.go:68-152 | the bytes of texts, ids and flags in a key, literally |
| DbReads.IntegerKeyBytes | db/db.go:90-99 | the eight bytes of an integer in a key, the most significant first |
| DbReads.TimeKeyBytes | db/db.go:153-168 | a time in a key is the integer of its milliseconds since 1970, rounded down and wrapped to 64 bits |
| DbKeys.SeparatorInNameCollides | db/db.go:205-219 | without the check two different keys collide |
| DbKeys.TimeKeySurvivesStorage | db/db.go:153-168 | for every time, before 1970 too, the key bytes are the same before and after storage |
| ByteOrder.CursorKeys | db/scan.go:138-150 | a cursor visits every key once, in increasing byte order |
| DbBuckets.PutLeafAt | db/indexed.go:104-113 | storing at a path sets that path and leaves every other path as it was |
| DbBuckets.PutKeepsBuckets | db/indexed.go:104-113 | creating buckets removes none |
| DbBuckets.DelLeafAt | db/indexed.go:345-359 | deleting at a path empties it and leaves every other path as it was |
| DbBuckets.DelKeepsBuckets | db/indexed.go:345-359 | buckets never disappear |
| DbStore.DelIndexShrinks | db/indexed.go:345-359 | deleting index entries only removes entries and keeps all buckets, even when it stops early at a missing one |
| DbStore.DelIndexAt | db/indexed.go:345-359 | where no bucket is missing, exactly the given keys are emptied |
| DbStore.PutIndexAt | db/indexed.go:329-343 | exactly the given keys are pointed to the value |
| DbStore.PutKeepsSound | db/indexed.go:302-327 | a put of any value keeps every index entry pointing to a live value that lists it |
| DbStore.DelKeepsSound | db/indexed.go:245-258 | so does deleting the stored value, or one that is not stored |
| DbStore.DelIndexExactly | db/indexed.go:345-359 | whatever keys a deletion is given, exactly those in front of the first missing bucket are emptied |
| DbStore.DelKeepsSoundIff | db/indexed.go:245-258 | a deletion keeps the index sound if and only if it reaches, among the keys it is given, every entry that points to the value |
| DbStore.DelKeepsExactIff | db/indexed.go:245-258 | a deletion keeps the index exact if and only if it reaches no key of another live value |
| DbStore.PutKeepsExactIff | db/indexed.go:302-327 | a put keeps the index exact if and only if no other live value has one of its keys |
| DbStore.DelKeepsExact | db/indexed.go:245-258 | deleting the stored value keeps the index exact |
| DbRuns.EmptySound | db/indexed.go:23-48 | a new collection is sound and exact |
| DbRuns.RunSound | db/indexed.go:195-258 | soundness after every sequence of Put, BatchPut and Del of stored values, failed operations included |
| DbRuns.RunExact | db/indexed.go:195-258 | exactness after every such sequence in which live values never share a key |
| DbRuns.ExactIsDerivedMap | db/indexed.go:329-343 | sound and exact together mean that the index is the map derived from the value table |
| DbRuns.DelOfOtherKeysDangles | db/indexed.go:245-258 | whatever keys Del is given, an entry of the value that it does not reach is left pointing nowhere |
| DbRuns.GetFindsTheLister | db/indexed.go:115-150 | Get by an index key returns precisely the live value that lists the key |
| DbRuns.GetIsSound | db/indexed.go:115-150 | without exactness, what Get returns still lists the key |
| DbRuns.GetById | db/indexed.go:124-145 | Get by id returns precisely the value stored under the id |
| DbRuns.IndexedBucket.PutIndexTx | db/indexed.go:329-343 | the loop over keys refines the put function on index trees, failures included |
| DbRuns.IndexedBucket.DelIndexTx | db/indexed.go:345-359 | the loop over keys refines the delete function, its early exit included |
| DbRuns.IndexedBucket.PutInTx | db/indexed.go:302-327 | old entries out, value in, new entries in; any failure undoes everything; what is read afterwards is DbReads.PutReads |
| DbRuns.IndexedBucket.Store | db/indexed.go:195-211 | Put: the new state of both buckets, or no change and an error; what is read afterwards is DbReads.PutReads and DbReads.PutReadsByKey |
| DbRuns.IndexedBucket.StoreAll | db/indexed.go:213-243 | BatchPut: all values or none; a bad key, or an id that cannot be encoded and is not left out, stops it beforehand; what is read afterwards is DbReads.BatchReads |
| DbRuns.IndexedBucket.Remove | db/indexed.go:245-258 | Del: the new state of both buckets, or no change and an error |
| DbRuns.IndexedBucket.FindBucket | db/indexed.go:93-102 | the walk along bucket names |
| DbRuns.IndexedBucket.Lookup | db/indexed.go:115-150 | Get, with both ways of resolving a key |
| DbReads.PutReads | db/indexed.go:195-211 | after a put the id reads as the value that was put, whatever it was before, and every other id reads as before |
| DbReads.PutReadsByKey | db/indexed.go:302-343 | after a put every index key of the value leads to it, whatever it led to before |
| DbReads.BatchReads | db/indexed.go:213-243 | after a batch an id reads as the last value of the batch that has it, and as before if none has |
| DbReads.DelReads | db/indexed.go:245-258 | after a deletion the id reads as nothing and every other id as before |
| DbReads.DelReadsByKey | db/indexed.go:245-258 | after deleting a stored value none of its index keys leads anywhere |
| DbReads.GetNothingIff | db/indexed.go:115-150 | the empty key alone is an error, and an index key reads as nothing if and only if no live value lists it |
| DbReads.NeverWritten | db/indexed.go:195-258 | after every run, an id that no successful operation had to do with reads as nothing |
| DbReads.RunReads | db/indexed.go:195-258 | after every run, an id reads as what the last successful operation on it left: the value put, the last one of a batch, or nothing |
| DbReads.Edit | db/indexed.go:195-211 | storing an edited value and looking it up, as methods: the new value, or no change |
| DbReads.PointerIff | db/indexed.go:50-60 | what counts as a pointer is what begins with the bytes of an id |
| DbPrefixFree.PutLeafIff | db/indexed.go:104-113 | storing at a path works exactly when no name on it is empty, no value stands on the way and no bucket at its end |
| DbPrefixFree.SucceedsIff | db/indexed.go:195-258 | with keys none of which extends another, an operation fails only by its own checks: of keys, of the id, and of what can be stored as a document |
| DbPrefixFree.RunNeverFails | db/indexed.go:195-258 | so it is at every point of every run from an empty store |
| DbPrefixFree.ExtendedKeyFails | db/indexed.go:329-343 | a value with a key that extends another of its keys can never be put |
| DbAll.AllRefinesLinearScan | db/indexed.go:152-180 | All of a key returns exactly the live values with a key that strictly extends it, each once |
| DbAll.AllHasEntries | db/indexed.go:152-180 | soundness alone: whatever an entry below the key points to is returned |
| DbAll.AllIsListed | db/indexed.go:152-180 | soundness alone: what is returned is live and listed under the key |
| DbAll.AllOfNothing | db/indexed.go:155-165 | All of the empty key returns every value, each once |
| DbAll.ScanPasses | db/scan.go:43-63 | the pointers found below a bucket are those of the values listed under the key |
| DbAll.FetchAll | db/indexed.go:152-180 | All as a method |
| DbOrder.ScanOrdered | db/scan.go:138-168 | the scan visits values level by level, and on each level in byte order of their paths |
| DbOrder.AllInOrder | db/indexed.go:152-180 | of two returned values the one whose first entry below the key has fewer names, or as many and comes first in byte order, comes first |
| DbOrder.AllById | db/indexed.go:155-165 | All of the empty key returns the values in the order of their ids |
| DbScan.ScanStepWeight | db/scan.go:142-150 | scanning one bucket strictly reduces what is left, so the queue loop ends |
| DbScan.ScanFinds | db/scan.go:138-168 | the queue loop finds every value below the waiting buckets and nothing else |
| DbScan.ScanDistinct | db/scan.go:138-168 | it finds no value twice |
| DbScan.ScanExactlyOnce | db/scan.go:138-168 | every leaf of the bucket tree is visited exactly once |
| DbScan.ScanBucket | db/scan.go:144-165 | the cursor loop over one bucket passes on its pointers and queues its buckets, in key order |
| DbScan.ScanBuckets | db/scan.go:138-168 | the loop over the queue of cursors refines the breadth-first scan |
| DbScan.ScanIndexedAll | db/scan.go:43-63 | pointers become values, each pointer once and dangling ones left out |
| DbFsck.FirstPassKeepsGoodEntries | db/scan.go:65-96 | from any state, the first pass goes through if and only if no entry is a nested bucket and every document pointed to can be read, and then keeps exactly the entries that lead to a stored document listing them |
| DbFsck.NestedKeysFail | db/scan.go:65-75 | an index with a bucket for a key of several elements makes the first pass fail |
| DbFsck.ValuePassBinds | db/scan.go:98-136 | when the second pass goes through, with keys of any length, every listed path is bound to a value that lists it and every other path is as before |
| DbFsck.RepairBinds | db/scan.go:65-136 | with readers that both strip the tag, keys of one element and a flat index, both passes go through, every entry points to a value that lists it and every listed key is bound |
| DbFsck.RepairEstablishesInvariant | db/scan.go:65-136 | under the same conditions the store is sound afterwards, from any index |
| DbFsck.RepairExact | db/scan.go:65-136 | with unique keys it is exact, too |
| DbFsck.RepairIdempotent | db/scan.go:65-136 | a second repair changes nothing |
| DbFsck.TaggedIsCorrupt | db/scan.go:98-104 | stored bytes with their tag never decode as a document |
| DbFsck.RepairedIffEmpty | db/indexed.go:289-299 | as written, the two passes go through if and only if there is no value and no bucket in the index |
| DbFsck.FsckSucceedsIff | db/indexed.go:260-300 | the whole check succeeds if and only if its validator finds obsolete values whose index entries can be deleted, or finds none and there is no value and no bucket |
| DbFsck.FsckSucceedsIffEmpty | db/indexed.go:260-300 | without a validator it succeeds only on an empty table with a flat index |
| DbFsck.RunIndexPass | db/scan.go:65-96 | the cursor loop with deletions refines the first pass, failing at nested buckets |
| DbFsck.PutLeafSame | db/scan.go:126-132 | leaving alone what is there already is the same as storing it |
| DbFsck.RunFixKeys | db/scan.go:109-133 | the loop over one value's keys, which makes missing buckets, is the same as putting them |
| DbFsck.RunValuePass | db/scan.go:98-136 | the cursor loop refines the second pass, failures included |
| DbFsck.RunReadAll | db/scan.go:15-26 | every value of the table, in key order, or a failure to read one |
| DbFsck.RunDeleteAll | db/indexed.go:273-284 | the transaction that deletes obsolete values and their entries |
| DbFsck.RunFsck | db/indexed.go:260-300 | the validator's early end, and otherwise both passes in one transaction |
| DbObsolete.ReadAllIs | db/indexed.go:260-271 | what the validator is given is every stored value, in key order |
| DbObsolete.DeleteAllEntries | db/indexed.go:273-284 | exactly the keys that the obsolete values list leave the index |
| DbObsolete.DeletingKeepsSound | db/indexed.go:273-284 | exactly the obsolete values leave the table, exactly their keys leave the index, and a sound store stays sound |
| DbObsolete.FsckDeletes | db/indexed.go:260-284 | the whole check of a sound collection whose validator picks some of its values: those are gone with their keys, and the rest is as it was |
| DbObsolete.FsckFails | db/indexed.go:260-300 | a validator that fails, or that picks nothing from values written by puts, ends the check with an error |
| Seen.BigEndianOrder | db/db.go:90-99 | big-endian bytes compare like the numbers they encode |
| Seen.TimeKeysSortIff | db/db.go:166-168 | two different times sort like their keys exactly when both are before 1970 or neither is |
| Seen.ListedUnderNick | collections/seen/seen.go:88-117 | an entry is found below a nick's bucket exactly when it is that nick's, under its time and nothing else |
| Seen.CollectSorted | db/scan.go:43-63 | collecting in key order gives entries in the order of their times |
| Seen.LastSeenIsNewest | collections/seen/seen.go:179-186 | in every sound store LastSeen returns a live entry of the nick whose time is the greatest of all stored for the nick |
| Seen.LastSeenOfLive | collections/seen/seen.go:179-186 | where no two live entries share a key, that time is the greatest of all live entries of the nick |
| Seen.FetchLastSeen | collections/seen/seen.go:179-186 | LastSeen as a method |
| MarkovStore.IncFlow | collections/markov/markov.go:40-71 | one use adds one to what leaves its source and one to what arrives at its destination, and nothing elsewhere |
| MarkovStore.AddTextFlow | collections/markov/markov.go:81-87 | one text, with URLs or without, changes outflow minus inflow of a word by one for its start, less one for the end marker, less its places in front of URLs, plus those behind URLs, even if its words are markers |
| MarkovStore.AddTextElsewhere | collections/markov/markov.go:45-51 | other tags are untouched |
| MarkovRuns.RunUses | collections/markov/markov.go:40-94 | after every run, URLs included, each pair of neighbouring words is counted exactly as often as it occurs in the texts since the tag was cleared, and nothing else is stored |
| MarkovRuns.RunPositive | collections/markov/markov.go:56-65 | every word that is there has followers, and no count is ever zero |
| MarkovRuns.StoredIffFollowed | collections/markov/markov.go:40-94 | after every run, URLs included, a word is there if and only if some text has it in front of a word or at the end |
| MarkovRuns.RunFlow | collections/markov/markov.go:40-94 | after every run, URLs included, outflow minus inflow of a word is the texts that start there, less all texts at the end marker, less its places in front of URLs, plus those behind URLs |
| MarkovRuns.FlowConservedIff | collections/markov/markov.go:73-87 | for sentences and actions, an ordinary word has equal flow if and only if it stands as often in front of URLs as behind them, with the same for outflow at least inflow |
| MarkovRuns.FlowConserved | collections/markov/markov.go:73-87 | so without URLs ordinary words have equal flow, and every word but the end marker has at least as much outflow as inflow |
| MarkovWalk.MarkovCollection.IncUses | collections/markov/markov.go:40-71 | the new counts, or no change for URLs and empty names |
| MarkovWalk.MarkovCollection.Add | collections/markov/markov.go:81-87 | the loop over the words refines the addition of a text |
| MarkovWalk.MarkovCollection.AddAction | collections/markov/markov.go:73-75 | an addition that starts at the action marker |
| MarkovWalk.MarkovCollection.AddSentence | collections/markov/markov.go:77-79 | an addition that starts at the sentence marker |
| MarkovWalk.MarkovCollection.ClearTag | collections/markov/markov.go:89-94 | the tag is gone; a tag that is not there is an error |
| MarkovWalk.MarkovCollection.GetLinks | collections/markov/markov.go:105-131 | the followers of a word with their counts, in key order; a missing tag or word is an error |
| MarkovWalk.LinksSum | util/markov/markov.go:60-67 | the sum over a word's links is everything that leaves the word |
| MarkovWalk.OneLinkEach | util/markov/markov.go:72-85 | the random numbers that fall to a link form an interval as long as its uses, and none falls to two links |
| MarkovWalk.MarkovCollection.SumLinks | util/markov/markov.go:60-67 | the sum, or the early end at the end marker |
| MarkovWalk.Pick | util/markov/markov.go:72-86 | the subtracting loop finds the link whose interval holds the random number |
| MarkovWalk.FallsIsDrawn | util/markov/markov.go:72-85 | the link that the loop finds is the one whose uses, behind those of all followers in front of it in byte order, hold the random number |
| MarkovChance.OneDrawn | util/markov/markov.go:72-85 | a random number means one follower |
| MarkovChance.OneWalk | util/markov/markov.go:50-88 | the random numbers decide the walk: two results for the same numbers are the same |
| MarkovChance.Markers | util/markov/markov.go:12-16 | the three markers, letter by letter |
| MarkovChance.UrlishIff | util/utils.go:121-126 | what counts as a URL: one of two schemes in front and no space |
| MarkovWalk.MarkovCollection.Generate | util/markov/markov.go:50-88 | for every sequence of random numbers: each word is the one that the number at its step means, the walk finishes only where the end is drawn or possible after 80%, every step follows a used link, the output never holds the end marker, no possible end after 80% is passed over, and each outcome means what it says |
| MarkovWalk.MarkovCollection.Sentence | util/markov/markov.go:45-48 | a walk of at most 50 words from the sentence marker |
| MarkovWalk.MarkovCollection.Action | util/markov/markov.go:40-43 | a walk of at most 50 words from the action marker |
| MarkovWalk.NeverStuck | util/markov/markov.go:50-88 | after every run without URLs that stored a text with that start, a walk ends well or with too much data, and never for want of links |
| MarkovWalk.StrandedIff | util/markov/markov.go:54-58 | after every run, URLs included, a walk fails for want of links if and only if, in the texts, its steps are neighbours, it could not have ended late, and its last word is followed by nothing |
| MarkovWalk.CanStrandIff | util/markov/markov.go:50-88 | so a run lets walks fail if and only if its texts have such a walk |
| MarkovWalk.NeverNotEnough | util/markov/markov.go:68-70 | after every run, with URLs or not, the walk never ends with not enough data: a word without uses has no bucket |
| MarkovWalk.UrlStrandsWalk | collections/markov/markov.go:41-44 | an instance: one sentence with a URL behind a word makes a walk fail for want of links |
| PseudoRand.FactoidCollection.GetPseudoRand | collections/factoids/factoids.go:183-226 | one draw: of the factoids not seen, the one the random number names, and what the key's cache becomes; other keys' caches stay |
| PseudoRand.FactoidCollection.Filter | collections/factoids/factoids.go:190-194 | exactly the factoids not seen, in order |
| PseudoRand.DrawnOrLeft | collections/factoids/factoids.go:183-226 | while a round lasts, drawn and undrawn factoids together are the collection |
| PseudoRand.BlockIsPermutation | collections/factoids/factoids.go:183-226 | as many draws as there are factoids, from an empty cache, return each exactly once and empty the cache, whatever the random numbers |
| PseudoRand.EveryBlockIsPermutation | collections/factoids/factoids.go:183-226 | so does every later round |
| PseudoRand.NoRepeatUntilWiped | collections/factoids/factoids.go:183-226 | in a changing collection too, nothing is drawn twice before the cache is wiped |
| Calendar.MonthsFollow | util/datetime/lexer.go:245-252 | the day numbers of dates have no gaps between months or years, and day 0 of a month is the last day before it |
| Calendar.CivilIsDay | util/datetime/lexer.go:409-413 | the year, month and day of a day lead back to the day |
| Calendar.DayIsCivil | util/datetime/lexer.go:409-413 | and those of a date's day are the date: days and dates correspond one to one |
| Calendar.WeekDateIff | util/datetime/lexer.go:275-287 | for every day, year, week and weekday: the week date is legal and resolves to the day if and only if it is the ISO week date of the day by the Thursday rule |
| Calendar.OneIsoDate | util/datetime/lexer.go:275-287 | every day has exactly one ISO week date |
| Calendar.WeekDatesDiffer | util/datetime/lexer.go:275-287 | two different legal week dates never resolve to the same day |
| DateLexer.DateState.SetDate | util/datetime/lexer.go:245-252 | a second date is an error and changes nothing |
| DateLexer.DateState.SetWeek | util/datetime/lexer.go:275-287 | the date is set, and has the given ISO week date exactly when that is a legal one |
| Calendar.NthOccurrence | util/datetime/lexer.go:419-429 | going forward to a weekday by more than n - 1 weeks and at most n passes it n times |
| Calendar.NthWithin | util/datetime/lexer.go:424-429 | the nth occurrence lies within a span exactly when the span holds n of them |
| DateLexer.ShiftIff | util/datetime/lexer.go:374-387 | the shift is the only one in [7n-6, 7n], [0, 6] or [7n, 7n+6] that leads to the weekday |
| DateLexer.ShiftIsNth | util/datetime/lexer.go:419-429 | from the day before the first, the shift leads to the nth occurrence counted from day 1 |
| DateLexer.NthInMonthIff | util/datetime/lexer.go:424-429 | the nth weekday of a month lies in that month exactly when the month has n of them |
| DateLexer.ClosestMonthIff | util/datetime/lexer.go:391-397 | the month difference lies between -5 and 6, as its comment says, if and only if it was at least -5 to begin with; otherwise it is left as it is |
| DateLexer.DateState.DayOffset | util/datetime/lexer.go:374-387 | the date moves within its window to the weekday, and the count is adjusted |
| DateLexer.DateState.MonthOffset | util/datetime/lexer.go:389-407 | the date moves by whole months, a day the month lacks running over, and the count is adjusted |
| DateLexer.MonthShiftIff | util/datetime/lexer.go:399-406 | for a nonzero count the shift is the only one in [12n-11, 12n] or [12n, 12n+11] that leads to the month |
| DateLexer.DateState.ResolveDMY | util/datetime/lexer.go:409-456 | every combination of year, month and weekday, with the panic on the others; the dates it leads to are those of DateResolve |
| DateLexer.ResolvedWeekday | util/datetime/lexer.go:419-444 | whatever else was given, the result is the weekday asked for, in its window, and the nth one counted from day 1 of the year or month |
| Calendar.RunsOver | util/datetime/lexer.go:409-413 | a day of the month that a month lacks leads to the month after it |
| DateLexer.CountedInMonthIff | util/datetime/lexer.go:435-444 | weekdays of a month without a year are counted in that month if and only if it has today's day of the month, and otherwise in the month after it |
| DateLexer.FebruaryOn31January | util/datetime/lexer.go:435-444 | an instance: on 31 January a weekday of February is looked for in March |
| DateResolve.DayLands | util/datetime/lexer.go:409-413 | a day of a month is the date it names, or, where the month has no such day, as many days into the month after it as it lacks |
| DateResolve.MonthAlone | util/datetime/lexer.go:432-434 | a month alone leads to that month, moved by the months its count asks for, or the nearest ones without a count, and keeps the day of the month, running over where the month lacks it |
| DateResolve.MonthOfYear | util/datetime/lexer.go:415-418 | a month of a year keeps the day of the month, running over where the month lacks it |
| DateResolve.YearAlone | util/datetime/lexer.go:445-453 | a year alone, whichever way it was given, keeps month and day, 29 February becoming 1 March where it must |
| DateResolve.WeekdayOfMonth | util/datetime/lexer.go:435-444 | a weekday of a month without a year, or of the current month, is the one asked for, counted from that month or, if it lacks today's day, from the month after it |
| DateResolve.WeekdayElsewhere | util/datetime/lexer.go:419-431 | a weekday alone, of a year, or of a month of a year, is the one asked for, counted from today or from day 1 |
| DateResolve.ResolvesIff | util/datetime/lexer.go:414-456 | which combinations resolve at all: not none, no year of a day beside a month, no year of a month beside a weekday unless the month is there |
| DateResolve.FourHundredYears | util/datetime/lexer.go:409-413 | the calendar repeats every 400 years of 146097 days, weekdays included |
| DateResolve.Epoch | util/datetime/lexer.go:409-413 | 1 January 1970 was a Thursday, 719162 days after the first day of year 1; 2000 was a leap year and 1900 was not |
| Lexer.StringLexer.Peek | util/lexer.go:37-50 | the character at the position without moving, or NUL at the end, which is remembered |
| Lexer.StringLexer.EOF | util/lexer.go:17-21 | true exactly at the end |
| Lexer.StringLexer.Next | util/lexer.go:55-60 | one character and past it, but never past the end |
| Lexer.StringLexer.Scan | util/lexer.go:65-74 | the longest run of matching characters, and the end remembered exactly when reached |
| Lexer.StringLexer.Find | util/lexer.go:92-99 | the text before the next occurrence, or all of the rest |
| Lexer.StringLexer.Rewind | util/lexer.go:102-105 | back to where the last Next or Scan began |
| Lexer.UnescapeRx | drivers/factdriver/commands.go:82-103 | each backslash taken away and the character behind it kept; a last one stays |
| Lexer.LastOther | drivers/factdriver/commands.go:70-71 | the backward loop counts the backslashes at the end |
| Lexer.ExtractRx | drivers/factdriver/commands.go:66-80 | for every input and delimiter: the unescaped text before the first delimiter that is not escaped, with the lexer left on it or at the end |
| Lexer.UnescapeEscape | drivers/factdriver/commands.go:82-103 | unescaping undoes escaping |
| Unescaping.UnescapeIsKept | drivers/factdriver/commands.go:82-103 | for every text, exactly the backslashes go that have something behind them and an even number of backslashes directly in front |
| Lexer.EscapedEndsAtDelimiter | drivers/factdriver/commands.go:66-80 | escaped text ends neither early nor late, whatever follows its delimiter |
| Lexer.EscapeRoundTrip | drivers/factdriver/commands.go:66-103 | escaped text followed by the delimiter and anything else is read back as it was, with the lexer on the delimiter |
| Lexer.BackslashEndsText | drivers/factdriver/commands.go:66-80 | with a backslash as delimiter the text ends at the first backslash |
| Lexer.BackslashRoundTripIff | drivers/factdriver/commands.go:66-103 | and the round trip holds if and only if the text holds no backslash |
| Lexer.ParseEdit | drivers/factdriver/commands.go:106-121 | the steps on the lexer give the two unescaped parts of the command, or an error |
| Lexer.EditAcceptedIff | drivers/factdriver/commands.go:106-121 | a text is accepted if and only if it begins with s and its delimiter is NUL or missing, or an unescaped delimiter follows the first unescaped one |
| Lexer.EditRoundTrip | drivers/factdriver/commands.go:106-121 | a command made by escaping any regexp and replacement is taken apart into the two |
| Lexer.LoneSAccepted | drivers/factdriver/commands.go:106-121 | an instance: a lone s is accepted, with two empty parts |
| Pollers.PollerSet.StartOne | bot/pollerset.go:75-97 | a new worker with a new quit channel, but only while some connection is up |
| Pollers.PollerSet.Add | bot/pollerset.go:38-44 | every poller keeps one live worker exactly while some connection is up, if and only if the poller was new or no connection is up |
| Pollers.PollerSet.Connected | bot/pollerset.go:51-59 | the first connection starts every poller once, later ones change no worker and no channel |
| Pollers.PollerSet.Disconnected | bot/pollerset.go:60-71 | the last disconnection tells every worker to stop, earlier ones change no worker and no channel |
| Pollers.PollerSet.StopOne | bot/pollerset.go:65-70 | only a channel that is open, and has its worker, is closed |
| Pollers.PollerSet.WorkerReturns | bot/pollerset.go:85-94 | a worker that returns late disturbs nothing |
| Pollers.AddOutcome | bot/pollerset.go:38-44 | the same for the state: adding a running poller again leaves two live workers, one of which nobody can stop |

## Left out

- BSON struct tags, reflection, getters and setters, maps, inline fields, raw documents and the conversions into typed variables: the ordered form over a plain value type is modelled.
- BsonDecode.Decoder.NextElem: the scope of code is decoded as ordered fields, where the source makes an unordered map.
- BsonRoundTrip.ValueBack: code with scope comes back as ordered fields, for the same reason.
- DbRuns.IndexedBucket.StoreAll: apart from its id, every value is assumed to have a document.
- DbFsck.RunIndexPass: deleting through a cursor is a loop over the keys that were there at the start.
- BSON encoder panics are a missing result; the other Go types the encoder accepts are not values of the model.
- bbolt's pages, key-size limits and file handling: a bucket is a byte-ordered tree map, a transaction is all or nothing.
- Values of the indexed store are assumed to list the same keys after storage as before; for time keys, the one case at risk, this is `DbKeys.TimeKeySurvivesStorage`.
- Concurrent transactions, the other collection kinds, `Match` and `Next`.
- Seen.LastSeenIsNewest: times before 1970 are excluded, because their keys do not sort; lower-casing of nicks is not modelled.
- Calculator number lexing, names, floating-point rounding, and function names used without parentheses in the tree theorem; token conservation covers them.
- CalcShunt.ShuntStep: tokens are values, so the argument count is kept beside the function token and not inside the token that the stacks share.
- Markov counters are unbounded; 64-bit wrap-around would take 2^64 additions of one pair. Splitting a text at white space is not modelled: texts are word sequences.
- Parsing of date texts, time zones and clock changes: dates are day numbers and the clock is not touched.
- Lexer.StringLexer: texts are ASCII; `Pos`, `Not` and `Number` are not modelled.
- Pollers: tickers, the polls themselves and scheduling; a worker is its quit channel, and telling it to stop is closing that channel.
- The copies of the pseudo-random draw for quotes and URLs, and all network, HTTP, logging and configuration code.
