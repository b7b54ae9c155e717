# autochal: verified models

This project models the parts of the autochal robot software whose behaviour is
hardest to see by reading it, and proves what they are for. To check it, run
`dafny verify dfyconfig.toml` with Dafny 4.11.

| files | what they model |
|---|---|
| `Bits.dfy`, `Options.dfy`, `Ring.dfy` | fixed-width arithmetic; optional values; the power-of-two ring of a serial port |
| `SerialTx.dfy`, `SerialRx.dfy`, `FastSerial.dfy` | the FastSerial driver: every interleaving of the foreground code with the two interrupt handlers, and the port object changed in place |
| `TxBytes.dfy`, `RxBytes.dfy` | the same interleavings with each 16-bit index accessed byte by byte |
| `BaudRate.dfy` | the choice of the USART divisor |
| `FormatSpec.dfy`, `FormatInteger.dfy`, `FormatFloat.dfy`, `FloatReadBack.dfy`, `Printf.dfy`, `FormatFields.dfy`, `BetterStream.dfy` | `BetterStream::_vprintf` |
| `IniGrammar.dfy`, `IniFile.dfy`, `IniReader.dfy`, `IniRoundTrip.dfy`, `IniLines.dfy` | the inih parser, its in-place scanner, and `INIReader` |
| `SensorCache.dfy`, `Waiting.dfy`, `Transfer.dfy`, `TransferPromise.dfy`, `SensorPackets.dfy` | the COIL library for the iRobot Create: sensor cache, waiting loops, transfers and what their comments promise, commands and packets |
| `Mission.dfy` | the waypoint mission |
| `Scheduler.dfy` | the rate scheduler with the threads it wakes |
| `ImuFrame.dfy` | the IMU frame checksum |

How the model is built:

- Code that several threads or interrupts share is a state machine over values
  (`Step`, `Run`), one step per access to shared memory or per lock operation;
  an interrupt handler is one step. Main results hold for every sequence of steps.
  The unsequenced loads of `head` and `tail` in one C expression are taken head first;
  `tail` is written by the foreground only, so the other order reads the same values.
- In `SerialTx` and `SerialRx` an access to a 16-bit index is one step. The processor
  makes two byte accesses of it, and an interrupt may come between them. `TxBytes` and
  `RxBytes` have these steps, in either byte order, and prove that they make no
  difference for rings of at most 256 bytes, such as the default ones of 128 and 64.
  For the 512-byte ring they do: see `RxBytes.PromiseIff`.
- Objects and buffers that the source changes in place are classes and arrays
  with methods proved against the specification functions.
- A control register is the set of its bits that are 1; the flag variable of
  `_vprintf` is a record of its eight bits, so that its double use of bits is kept.
- `__ultoa_invert` is specified as producing digits least significant first, and
  `__ftoa_engine` is a parameter that yields flags, an exponent and eight digits.
- The INI handler is a function of all calls made so far, which covers handlers
  with state. A `:` or `#` and the other INI characters have the meaning the code
  gives them.

Where code and documentation disagree, the code is modelled:

- `cwrite` and `cread` promise to give up after three transfers in a row that move
  nothing; the code gives up at the fourth one in total. `Transfer.CompletesIff` says
  exactly when it completes. `TransferPromise.AgreesIff` says for every schedule when
  code and comments hand over and return the same, and
  `TransferPromise.AgreesOnFullSchedule` puts it in terms of the empty calls;
  `TransferPromise.GivesUpEarly` and `TransferPromise.GoesOn` are inputs that differ.
- `available` may count bytes that are not there, or be followed by an empty read, in
  a ring of 512 bytes (`RxBytes.CountsTooMuch`, `RxBytes.ReadsTooLittle`).
- `drive` returns 0 for success, but also when its command went out only in part;
  `Transfer.StopsShortIff` says exactly when.
- `abs(yaw_err) < 0.5` uses the integer `abs`, so it accepts errors below one
  degree (`Mission.AlignedMeans`).
- After a homecoming the lap count is 0, not its initial 1, so a second mission has
  one lap more (`Mission.MissionLengths`).
- The 8-bit length counter of `_vprintf` wraps for precisions of 254 and 255;
  `FormatInteger.IntegerLength` says exactly when the promised width is missed, and
  `FormatInteger.WidthMissed` is an input.
- `int ureg` and `int u2` overflow for slow rates. `BaudRate.ChoosesRightIff` says
  exactly for which rates the choice between the two modes is still right;
  `BaudRate.WrongAt61Baud` is a rate that `begin` accepts and gets wrong, and
  `BaudRate.RightAt15Baud` one that wraps and comes out right.
  `BaudRate.ModeIsBestIffDivisorFits` is about one mode alone, with
  `BaudRate.WrongModeAt30Baud` as input. Above F_CPU / 8 the register wraps
  (`BaudRate.FastRateIsBestIff`).
- `%.0d` of 0 prints `0` (`FormatInteger.ZeroWithoutPrecision`), `%+u` prints a sign
  (`FormatInteger.SignOnUnsigned`), and a line feed in the format becomes carriage
  return and line feed (`Printf.LineFeed`), unlike section 7.19.6.1 of ISO/IEC
  9899:1999.
- The IMU header test rejects a frame only when both header bytes are wrong
  (`ImuFrame.WrongHeaderIsAccepted`).
- Continuation lines of a name of 50 characters or more are stored under its first 49
  (`IniRoundTrip.LongNameStored`).

## Model

| member | source | states |
|---|---|---|
| Ring.HoldsMeans | Software/Arduino/FastSerial.cpp:193-207 | the masked index arithmetic counts the unread bytes, and the two index comparisons decide exactly "empty" and "holds mask bytes" |
| Ring.HoldsContents | Software/Arduino/FastSerial.cpp:205-221 | walking the ring from tail to head yields the stream minus what was taken, in order |
| Ring.StoreFree | Software/Arduino/FastSerial.cpp:259 | storing under head never touches an unread byte while the ring is not full |
| Ring.Push | Software/Arduino/FastSerial.cpp:260 | advancing head appends the stored byte to the stream |
| Ring.Pop | Software/Arduino/FastSerial.cpp:207 | advancing tail takes the oldest byte |
| SerialTx.TransmitIsFifo | Software/Arduino/FastSerial.cpp:245-264 | for every interleaving of `write` with the transmit interrupt, bytes sent followed by the ring are the bytes committed, which are the bytes handed to `write` except one in progress; at most mask bytes wait; other control bits survive the non-atomic `OR-assignment` |
| SerialTx.NoLostWakeup | Software/Arduino/FastSerial.h:159-172 | in every reachable state with waiting bytes the transmit interrupt is enabled, unless the writer is about to enable it |
| SerialTx.SpinIsReleased | Software/Arduino/FastSerial.cpp:253-256 | a writer spinning on a full ring has the interrupt enabled and leaves the loop after one of them |
| SerialTx.WriteCompletes | Software/Arduino/FastSerial.cpp:246-264 | one chance for the interrupt and seven foreground steps, interleaved in any way, complete any call in progress |
| SerialTx.IdlePortDrains | Software/Arduino/FastSerial.h:161-171 | with n bytes waiting and the writer idle, n interrupts send exactly what was handed over, and one more disables the interrupt |
| SerialTx.RunKeepsInv | Software/Arduino/FastSerial.cpp:245-264 | every step of writer or interrupt keeps ring, writer and wake-up invariants |
| TxBytes.BytesMakeNoDifference | Software/Arduino/FastSerial.cpp:245-264 | with each index accessed byte by byte, in either order, every run in a ring of at most 256 bytes is one of whole accesses: nothing is lost and waiting bytes have an interrupt coming |
| TxBytes.WriteCompletesBytewise | Software/Arduino/FastSerial.cpp:246-264 | with split accesses one chance for the interrupt and nine foreground steps complete any call in progress |
| SerialRx.ReceiveIsFifo | Software/Arduino/FastSerial.cpp:196-222 | for every interleaving of `read`, `peek` and `available` with the receive interrupt, returned bytes followed by the ring are the accepted bytes in order; each value read or peeked is the oldest unread byte |
| SerialRx.DropsOnlyWhenFull | Software/Arduino/FastSerial.h:143-158 | a byte is dropped exactly when it arrives while the ring holds mask bytes, and all others are accepted |
| SerialRx.AvailableIsAPromise | Software/Arduino/FastSerial.cpp:188-210 | with indexes accessed whole, between an `available` that returned n and a later empty read there are at least n successful reads, whatever interrupts occur |
| SerialRx.CallCompletes | Software/Arduino/FastSerial.cpp:188-222 | six steps of its own complete any call, whatever interrupts come in between: `available` counts no less than was unread at its start and no more than at its end; `read` and `peek` give the oldest unread byte, or nothing only if the ring was empty at the start; `read` takes what it gives |
| SerialRx.RunKeepsInv | Software/Arduino/FastSerial.cpp:188-222 | with indexes accessed whole, every step of reader or interrupt keeps the invariant, stale copies of head included |
| RxBytes.BytesMakeNoDifference | Software/Arduino/FastSerial.cpp:188-222 | with each index accessed byte by byte, in either order, every run in a ring of at most 256 bytes is one of whole accesses: bytes come back in order and only a full ring drops one |
| RxBytes.CallCompletesBytewise | Software/Arduino/FastSerial.cpp:188-222 | with split accesses, in a ring of at most 256 bytes, eight foreground steps complete any call, with the result stated for whole accesses |
| RxBytes.PromiseIff | Software/Arduino/FastSerial.cpp:188-210 | in either byte order no count of `available` exceeds what arrived, and none is followed by an empty read too soon, on every run exactly for rings of at most 256 bytes |
| RxBytes.CountsTooMuch | Software/Arduino/FastSerial.cpp:193 | low byte first, a ring of 512 bytes with 256 in it is counted as 511 |
| RxBytes.ReadsTooLittle | Software/Arduino/FastSerial.cpp:193-200 | high byte first, `available` returns 255 and the next read finds nothing |
| FastSerial.Buffer.Alloc | Software/Arduino/FastSerial.cpp:268-288 | the buffer size is the least power of two that covers the request, at most 512 and at least 2; failure is reported |
| FastSerial.FastSerial.Begin | Software/Arduino/FastSerial.cpp:125-177 | the port opens exactly when both buffers were allocated, empty and each of the least power of two for its request (128 and 64 by default), with exactly bits 3, 4 and 7 set and the chosen divisor and speed mode written |
| FastSerial.FastSerial.End | Software/Arduino/FastSerial.cpp:179-186 | closing clears bits 3, 4, 5 and 7 of the control register and nothing else |
| FastSerial.FastSerial.TransmitInterrupt | Software/Arduino/FastSerial.h:159-172 | the handler on the fields is the interrupt step of the transmit machine |
| FastSerial.FastSerial.Write | Software/Arduino/FastSerial.cpp:245-264 | a call amounts to a run of the transmit machine that commits exactly its byte and leaves the interrupt enabled; a closed port drops it |
| FastSerial.FastSerial.AwaitRoom | Software/Arduino/FastSerial.cpp:253-256 | the spin loop ends, with only the transmit interrupt running meanwhile, and with room for the byte |
| FastSerial.FastSerial.ReceiveInterrupt | Software/Arduino/FastSerial.h:143-158 | the handler on the fields is the interrupt step of the receive machine |
| FastSerial.FastSerial.Read | Software/Arduino/FastSerial.cpp:196-210 | an uninterrupted read removes and returns the oldest byte, or returns -1 on an empty or closed port |
| FastSerial.FastSerial.Peek | Software/Arduino/FastSerial.cpp:212-222 | an uninterrupted peek returns the oldest byte and leaves it |
| FastSerial.FastSerial.Available | Software/Arduino/FastSerial.cpp:188-194 | an uninterrupted call returns the number of unread bytes, or -1 when closed |
| BaudRate.ModeIsBestIffDivisorFits | Software/Arduino/FastSerial.cpp:153-159 | in either mode the computed rate is the smallest not below the request over all divisors, exactly when the divisor fits a 16-bit int |
| BaudRate.ChoosesRightIff | Software/Arduino/FastSerial.cpp:148-170 | for any clock and every rate up to F_CPU / 16, the double-speed rate lies between request and normal rate and normal speed is chosen exactly on a tie, if and only if the double-speed divisor modulo 2^17 is between 2 and 32767 |
| BaudRate.DoubleSpeedNeverWorse | Software/Arduino/FastSerial.cpp:148-170 | in particular whenever that divisor fits a 16-bit int |
| BaudRate.WrittenRateIsBest | Software/Arduino/FastSerial.cpp:148-170 | for every rate up to F_CPU / 16 whose double-speed divisor fits a 16-bit int, the rate of the register and mode that are written is not below the request and no divisor of either mode comes nearer from above; double speed is used only where normal speed cannot give this rate |
| BaudRate.WrittenRegister | Software/Arduino/FastSerial.cpp:153-175 | whatever wraps, the register is the divisor of the chosen mode less one in 16 bits, and only a divisor that is a multiple of 2^16 leaves it undefined |
| BaudRate.WrongAt61Baud | Software/Arduino/FastSerial.cpp:158-170 | at 16 MHz the double-speed rate for 61 baud comes out as -61 and normal speed is chosen without a tie |
| BaudRate.RightAt15Baud | Software/Arduino/FastSerial.cpp:158-170 | at 16 MHz both divisors for 15 baud wrap and the choice is right all the same |
| BaudRate.WrongModeAt30Baud | Software/Arduino/FastSerial.cpp:158-159 | at 16 MHz the double-speed rate for 30 baud comes out as 1769 although a divisor for 30 exists |
| BaudRate.FastRateIsBestIff | Software/Arduino/FastSerial.cpp:144-146 | above F_CPU / 16 the written divisor gives the best double-speed rate exactly up to F_CPU / 8, and 65535 is written beyond |
| BaudRate.ChooseDivisor | Software/Arduino/FastSerial.cpp:144-171 | the method computes the setting that these results are about |
| FormatSpec.AdjustInPlace | Software/Arduino/vprintf.cpp:135-180 | the loop body on the variables does what the specification function says for one character |
| FormatSpec.Scan | Software/Arduino/vprintf.cpp:127-181 | the adjustment loop computes flags, width, precision and conversion as the specification function does from any position |
| FormatSpec.ParseRender | Software/Arduino/vprintf.cpp:131-181 | parsing the canonical text of any flags, width, precision, length modifier and conversion recovers them, width and precision modulo 256 and `+` also setting the space flag |
| FormatFields.FlagCharacter | Software/Arduino/vprintf.cpp:137-152 | which flag each character sets before the first digit, point or `l` |
| FormatFields.DigitCharacter | Software/Arduino/vprintf.cpp:156-166 | digits go to the width, or behind a point to the precision, modulo 256 |
| FormatFields.OtherCharacter | Software/Arduino/vprintf.cpp:167-178 | the point, a second point, `l` and `h` |
| FormatFields.ConversionCharacter | Software/Arduino/vprintf.cpp:135-180 | every other character, and any character behind `l`, is the conversion |
| FormatFields.LateFlag | Software/Arduino/vprintf.cpp:136-180 | behind digits and points the flag characters are conversions |
| FormatSpec.FoldDecimal | Software/Arduino/vprintf.cpp:156-164 | reading a decimal numeral digit by digit in one byte gives it modulo 256 |
| FormatInteger.NegatedMagnitude | Software/Arduino/vprintf.cpp:404-408 | negation in `long` and conversion to `unsigned long` give the magnitude, for the smallest `long` too |
| FormatInteger.DigitsFitBuffer | Software/Arduino/vprintf.cpp:107 | 32-bit numbers have at most 11 digits in bases 8 to 16 |
| FormatInteger.SettledMeans | Software/Arduino/vprintf.cpp:401-475 | after the bits that are used twice are settled, the flags select exactly the sign or prefix and the layout of the conversion |
| FormatInteger.PrefixForms | Software/Arduino/vprintf.cpp:493-502 | the prefix is a sign, `0`, `0x`, `0X` or nothing, and `-` appears exactly for negative numbers |
| FormatInteger.IntegerLength | Software/Arduino/vprintf.cpp:453-518 | exactly max(width, natural length) characters are printed if and only if the 8-bit length does not wrap or leaves nothing to pad; precisions up to 253 never wrap |
| FormatInteger.WidthMissed | Software/Arduino/vprintf.cpp:453-491 | `%#255.255x`, which the parser accepts, prints 1 with 511 characters instead of 257 |
| FormatInteger.ZeroWithoutPrecision | Software/Arduino/vprintf.cpp:408-412 | `%.0d` of 0 prints `0` |
| FormatInteger.SignOnUnsigned | Software/Arduino/vprintf.cpp:415-502 | `%+u` prints `+` and the digits |
| FormatInteger.PaddingOfBare | Software/Arduino/vprintf.cpp:477-518 | the width only adds spaces behind (`-`), zeros between prefix and digits (`0`), or spaces in front of the text printed without it |
| FormatInteger.DigitsOfBare | Software/Arduino/vprintf.cpp:504-511 | behind the prefix there are only digits of the base, at least one and at least as many as the precision |
| FormatInteger.IntegerReadBack | Software/Arduino/vprintf.cpp:398-512 | an independent reader in the conversion's base gets back the argument, signed for d and i, from the printed text, whatever the flags, width and precision |
| FormatFields.IntegerReads | Software/Arduino/vprintf.cpp:398-512 | from any integer field the reader gets the argument modulo 2^16, or 2^32 with `l`, signed for d and i |
| FormatFields.IntegerShape | Software/Arduino/vprintf.cpp:398-512 | sign or base mark, then digits of the base in the right case, with a leading zero only for 0 and to fill up the precision |
| FormatFields.IntegerWidth | Software/Arduino/vprintf.cpp:453-518 | the width is filled up, by the length in 8 bits, behind the text, behind its prefix with zeros, or in front |
| FormatFields.StringShape | Software/Arduino/vprintf.cpp:369-380 | a string is printed up to its NUL or its precision |
| FormatFields.StringWidth | Software/Arduino/vprintf.cpp:382-395 | the width is filled up with spaces on the side the flag chooses |
| FormatFloat.PaddedLength | Software/Arduino/vprintf.cpp:382-395 | strings and characters take max(width, length) characters |
| FormatFloat.BoundedLength | Software/Arduino/vprintf.cpp:371-379 | the printed part of a string ends at its NUL or at the precision |
| FormatFloat.FixedUses | Software/Arduino/vprintf.cpp:259-266 | for every exponent of a double the byte arithmetic of f does not wrap: it uses all digits down to the last place printed, one less after a carry, at least 1 and at most 8 |
| FormatFloat.HugeExponentWraps | Software/Arduino/vprintf.cpp:259-266 | an exponent of 100, which no double has, would wrap and leave one digit |
| FormatFloat.GeneralDigits | Software/Arduino/vprintf.cpp:267-348 | g prints the same significant digits in both layouts: those up to the last that is not zero, within the precision; this is its whole text |
| FormatFloat.Trimmed | Software/Arduino/vprintf.cpp:270-271 | only zeros are dropped, and a zero is not kept at the end |
| FormatFloat.BodyLength | Software/Arduino/vprintf.cpp:279-286 | the length computed beforehand is the number of characters written |
| FormatFloat.FloatLength | Software/Arduino/vprintf.cpp:231-355 | every floating-point conversion, inf and nan included, takes max(width, natural length) characters |
| FormatFloat.FloatPadding | Software/Arduino/vprintf.cpp:288-301 | the width only adds spaces behind, zeros behind the sign (not for inf and nan) or spaces in front of the text printed without it |
| FormatFloat.FixedPlacesAre | Software/Arduino/vprintf.cpp:259-314 | for every exponent of a double the places f prints are leading zeros, the engine's digits and trailing zeros, so each digit stands at its power of ten |
| FormatFloat.FixedConversion | Software/Arduino/vprintf.cpp:259-325 | f prints exactly these digits, with the point in front of the last `prec` of them, and a last 1 for a number that rounds up to it |
| FormatFloat.FixedValue | Software/Arduino/vprintf.cpp:305-314 | read as an integer these digits are the engine's number in units of the last place |
| FormatFloat.WithPointIs | Software/Arduino/vprintf.cpp:306-314 | the point stands between the places 0 and -1 |
| FormatFloat.ExponentReadBack | Software/Arduino/vprintf.cpp:337-348 | the two exponent digits read back as the magnitude of an exponent below 100, with its sign |
| FloatReadBack.ExponentialReadBack | Software/Arduino/vprintf.cpp:183-355 | an independent reader of the whole field, padding included, gets sign, first digits and exponent of the engine's number from the text of e |
| FloatReadBack.FixedReadBack | Software/Arduino/vprintf.cpp:183-325 | the reader gets the sign and the digits of the engine's number at their place from the text of f |
| FloatReadBack.SmallReadBack | Software/Arduino/vprintf.cpp:303-325 | a number without a digit in the places printed reads back as the 0 or 1 of the last place that it rounds to, with its sign |
| FloatReadBack.GeneralReadBack | Software/Arduino/vprintf.cpp:183-348 | the reader gets the sign and the digits up to the last that is not zero at their power of ten from the text of g, in either layout |
| FloatReadBack.SignOfBare | Software/Arduino/vprintf.cpp:223-229 | the text without a width starts with `-` exactly for a negative number or infinity, with `+` or a space exactly when that flag asks for it and there is no `-`, and otherwise with the body |
| FloatReadBack.WidthOfField | Software/Arduino/vprintf.cpp:231-301 | the width is filled up with spaces behind, with zeros behind the sign (not for inf and nan), or with spaces in front |
| FloatReadBack.SpecialBody | Software/Arduino/vprintf.cpp:231-255 | inf and nan are spelled in the case of the conversion |
| FloatReadBack.ExponentialShape | Software/Arduino/vprintf.cpp:325-348 | e prints digit, point, digits, letter, sign and two digits; the sign is `-` also for a 1 that the engine rounded up from below |
| FloatReadBack.FixedShape | Software/Arduino/vprintf.cpp:303-325 | f prints digits with a point in front of exactly the places asked for |
| FloatReadBack.GeneralLayout | Software/Arduino/vprintf.cpp:267-276 | g has an exponent exactly outside of -4 to the precision |
| FloatReadBack.EngineRequest | Software/Arduino/vprintf.cpp:201-221 | the engine is asked for the precision with its default 6, its limits and the adjustment of g |
| BetterStreams.BetterStream.PrintInteger | Software/Arduino/vprintf.cpp:398-512 | the method writes exactly the specified text for d, i, u, o, x, X, p and nothing otherwise |
| BetterStreams.BetterStream.SettleInteger | Software/Arduino/vprintf.cpp:453-475 | the settled flags, and the length modulo 256 |
| BetterStreams.BetterStream.PlanInteger | Software/Arduino/vprintf.cpp:477-491 | where the padding goes, in byte arithmetic |
| BetterStreams.BetterStream.PrintString | Software/Arduino/vprintf.cpp:382-395 | the method writes the text padded to the width on the side the flag chooses |
| BetterStreams.BetterStream.PrintFloat | Software/Arduino/vprintf.cpp:183-355 | the method writes exactly the specified text for e, f, g, E, F, G |
| BetterStreams.BetterStream.EmitPlaces | Software/Arduino/vprintf.cpp:305-314 | the positional loop writes all places but the last with the point in its place, reading only the eight digits |
| BetterStreams.BetterStream.EmitMantissa | Software/Arduino/vprintf.cpp:325-335 | first digit, point and the digits after it |
| BetterStreams.BetterStream.EmitExponent | Software/Arduino/vprintf.cpp:337-348 | letter, sign, tens and ones of the exponent |
| BetterStreams.BetterStream.Vprintf | Software/Arduino/vprintf.cpp:100-521 | a whole call writes exactly the specified output for any format and arguments |
| Printf.OutputOfTemplate | Software/Arduino/vprintf.cpp:109-125 | printing any template of literals and conversions gives the literals, with carriage returns before line feeds and `%%` as `%`, and the converted arguments in order |
| FormatFields.IntegerTakes | Software/Arduino/vprintf.cpp:401-448 | each integer conversion prints one integer argument |
| FormatFields.FloatTakes | Software/Arduino/vprintf.cpp:185-220 | each floating-point conversion prints one double |
| FormatFields.StringTakes | Software/Arduino/vprintf.cpp:369-380 | s and S print one string |
| FormatFields.CharTakes | Software/Arduino/vprintf.cpp:363-373 | c prints one integer argument modulo 256 as a character |
| FormatFields.OthersEnd | Software/Arduino/vprintf.cpp:445-446 | any other conversion ends the call |
| FormatFields.PlainOutput | Software/Arduino/vprintf.cpp:109-125 | text without `%` is printed as it is but for the carriage returns |
| FormatFields.PercentAndNul | Software/Arduino/vprintf.cpp:112-117 | `%%` prints one of them and a NUL ends the format |
| Printf.LineFeed | Software/Arduino/vprintf.cpp:118-124 | a line feed is printed as carriage return and line feed |
| IniGrammar.RStripped | Software/Code/iMain/inih/ini.c:24-30 | the longest prefix that does not end in white space |
| IniGrammar.Leading | Software/Code/iMain/inih/ini.c:33-38 | the number of leading white space characters |
| IniGrammar.Find | Software/Code/iMain/inih/ini.c:43-51 | the first position of the character or of a `;` behind white space, or the end |
| IniFile.RStrip | Software/Code/iMain/inih/ini.c:24-30 | in place: the string becomes its stripped form and nothing outside it changes |
| IniFile.LSkip | Software/Code/iMain/inih/ini.c:33-38 | the returned index is behind the leading white space |
| IniFile.FindCharOrComment | Software/Code/iMain/inih/ini.c:43-51 | the scan stops exactly where the grammar says |
| IniFile.StrNCpy0 | Software/Code/iMain/inih/ini.c:54-59 | the buffer holds the source string cut to one less than its size |
| IniFile.FGets | Software/Code/iMain/inih/ini.c:91 | the buffer holds the next line or the next 199 characters |
| IniFile.Parser.ScanSection | Software/Code/iMain/inih/ini.c:115-127 | a section line updates the section and clears the previous name, or is malformed, as the grammar says |
| IniFile.Parser.ScanPair | Software/Code/iMain/inih/ini.c:128-152 | a pair line calls the handler with the name and value of the grammar, or is malformed |
| IniFile.Parser.SplitPair | Software/Code/iMain/inih/ini.c:134-141 | cutting at the separator leaves stripped name and value in the same buffer |
| IniFile.Parser.CutValue | Software/Code/iMain/inih/ini.c:137-141 | the value loses leading space, comment and trailing space, and nothing outside it changes |
| IniFile.Parser.ScanLine | Software/Code/iMain/inih/ini.c:94-152 | one line in the buffer has exactly the effect and verdict of the grammar |
| IniFile.ParseFile | Software/Code/iMain/inih/ini.c:62-165 | the handler calls are those of the grammar over all lines, and the result is the number of the first malformed or rejected line, or 0 |
| IniLines.LayoutHasNoMeaning | Software/Code/iMain/inih/ini.c:128-146 | blanks around name, `=` and value and a trailing comment do not change the call a line makes |
| IniLines.ColonSeparates | Software/Code/iMain/inih/ini.c:130-134 | `:` separates like `=` on a line without `=` |
| IniLines.IgnoredLine | Software/Code/iMain/inih/ini.c:104-106 | blank and comment lines change nothing |
| IniLines.MalformedIff | Software/Code/iMain/inih/ini.c:128-151 | a text line is malformed exactly when neither separator stands in front of its first comment, and then it changes nothing; otherwise it makes one call and the handler's answer is its verdict |
| IniLines.SeparatorShape | Software/Code/iMain/inih/ini.c:130-134 | on any line with a separator it is the first of its kind and no `;` behind white space stands before it; `:` separates only where every `=` stands behind a comment |
| IniLines.NameShape | Software/Code/iMain/inih/ini.c:134-136 | the name is what stands before the separator less white space at its end |
| IniLines.ValueShape | Software/Code/iMain/inih/ini.c:137-141 | the value is what lies between white space behind the separator and the end of the line or its first comment |
| IniLines.EmptyValue | Software/Code/iMain/inih/ini.c:134-146 | a line may have an empty value |
| IniLines.EmptyName | Software/Code/iMain/inih/ini.c:134-146 | a line may have an empty name, which ends the continuation of the one before |
| IniLines.IndentedWithoutName | Software/Code/iMain/inih/ini.c:108-113 | without a name to continue indentation has no meaning |
| IniLines.IndentedContinues | Software/Code/iMain/inih/ini.c:108-113 | with one, any indentation makes a continuation line, of a `[` or `=` line too |
| IniLines.BeforeAnySection | Software/Code/iMain/inih/ini.c:73-74 | a file starts outside of any section and with no name to continue |
| IniLines.LongLineIsCut | Software/Code/iMain/inih/ini.c:91 | the first 199 characters of a longer line are a line of their own |
| IniLines.BadLineIsReported | Software/Code/iMain/inih/ini.c:144-155 | behind any printed configuration and in front of any other text, a line without separator has its number reported |
| IniReader.INIReader.ValueHandler | Software/Code/iMain/inih/cpp/INIReader.cpp:67-76 | a value is stored under its key, on a new line behind an earlier non-empty one |
| IniReader.INIReader.constructor | Software/Code/iMain/inih/cpp/INIReader.cpp:11-14 | the map holds all calls of the grammar in order; the error is -1 for a missing file and the first bad line otherwise |
| IniReader.Lower | Software/Code/iMain/inih/cpp/INIReader.cpp:59-65 | keys are lower-cased character by character |
| IniRoundTrip.SectionHeader | Software/Code/iMain/inih/ini.c:115-122 | a printed header sets the section, cut to 49 characters, and clears the previous name |
| IniRoundTrip.EntryLine | Software/Code/iMain/inih/ini.c:128-147 | a printed `name=value` line calls the handler with exactly that name and value; only a `;` behind white space is excluded from them, so `a;b` is a value |
| IniRoundTrip.ContinuationLine | Software/Code/iMain/inih/ini.c:108-113 | a printed indented line calls the handler with the previous name |
| IniRoundTrip.TruncatedNameMakes | Software/Code/iMain/inih/ini.c:108-147 | continuation lines make their calls under the name, or under its first 49 characters if it has more |
| IniRoundTrip.LongNameStored | Software/Code/iMain/inih/ini.c:108-147 | the first line of a name of 50 characters or more is stored alone and its continuation under the cut name |
| IniRoundTrip.LinesOfConcat | Software/Code/iMain/inih/ini.c:91 | printed lines below the limit are read back one by one |
| IniRoundTrip.PrintThenParse | Software/Code/iMain/inih/ini.c:62-165 | printing any configuration, described by its characters and lengths alone, and parsing it reports no error and stores exactly its map |
| IniRoundTrip.MarkHasNoMeaning | Software/Code/iMain/inih/ini.c:96-102 | the bytes EF BB BF in front of the first line have no meaning |
| IniRoundTrip.MarkedThenParse | Software/Code/iMain/inih/ini.c:62-165 | so the printed text parses to the same map behind them |
| IniRoundTrip.JoinSplits | Software/Code/iMain/inih/cpp/INIReader.cpp:67-76 | the lines of a joined value are those that were joined |
| IniRoundTrip.MeaningAt | Software/Code/iMain/inih/cpp/INIReader.cpp:21-25 | with distinct keys every entry of the map is that of its own item |
| IniReader.KeyIgnoresCase | Software/Code/iMain/inih/cpp/INIReader.cpp:59-65 | two keys are equal exactly when section, dot and name differ at most in the case of letters |
| IniRoundTrip.ReadBack | Software/Code/iMain/inih/cpp/INIReader.cpp:11-25 | a reader that has read printed text reports no error and answers every entry with a value of exactly its lines, in whatever case section and name are asked for |
| IniRoundTrip.ReadMissing | Software/Code/iMain/inih/cpp/INIReader.cpp:21-25 | a name that the printed text does not have gets the default |
| IniRoundTrip.ReadBooleanBack | Software/Code/iMain/inih/cpp/INIReader.cpp:45-57 | `GetBoolean` of such a reader is true for true, yes, on and 1, false for false, no, off and 0 in any case, and the default for any other value |
| SensorCache.FetchesPartitionTheSensed | Software/Code/libs/libcreateoi/createoi.c:1134-1141 | with any number of callers and any interleaving, each `getDistance` returns exactly what was sensed since the fetch before it |
| SensorCache.DistanceIsConserved | Software/Code/libs/libcreateoi/createoi.c:230-246 | returned values, the one in flight and the cache add up to everything sensed |
| SensorCache.PollsCountWhatWasSensed | Software/Code/libs/libcreateoi/createoi.c:1570-1594 | the polls of a single caller add up to the distance sensed between its reset and its last poll |
| SensorCache.CallCompletes | Software/Code/libs/libcreateoi/createoi.c:1136-1141 | from every reachable state a waiting call that finds the lock free returns at its fourth step, whatever calls and readings come in between: it gives back what the cache held and leaves the cache 0 and the lock free |
| SensorCache.ReadingCompletes | Software/Code/libs/libcreateoi/createoi.c:228-246 | a reading is added to the cache by four steps of the sensor thread, whatever comes in between |
| SensorCache.HolderReleases | Software/Code/libs/libcreateoi/createoi.c:1136-1139 | whoever holds the lock frees it within three of its own steps |
| SensorCache.CallWaits | Software/Code/libs/libcreateoi/createoi.c:1136 | a call waits until its own next step |
| SensorCache.ReadingWaits | Software/Code/libs/libcreateoi/createoi.c:228-230 | a reading is kept until the sensor thread's next step |
| SensorCache.RunKeepsInv | Software/Code/libs/libcreateoi/createoi.c:218-251 | mutual exclusion, fresh local copies and the ledger are kept by every step |
| Waiting.StopCheck.StopWait | Software/Code/libs/libcreateoi/createoi.c:1532-1550 | the overcurrent contribution fires exactly when the positive readings ending here number 5, 10, 15 and so on |
| Waiting.Cache.WaitDistance | Software/Code/libs/libcreateoi/createoi.c:1570-1594 | the loop ends at the first poll that fails, to which `stopWait` objects, or that reaches the signed target, and counts what was sensed since its reset |
| Waiting.WaitMeans | Software/Code/libs/libcreateoi/createoi.c:1576-1594 | at every poll before the last nothing fails, nothing interrupts and the signed target is not reached; at the last one of these is so, and the result is everything sensed |
| Waiting.OvercurrentNeedsFive | Software/Code/libs/libcreateoi/createoi.c:1537-1545 | the overcurrent contribution needs five positive readings in a row |
| Waiting.WaitOnRun | Software/Code/libs/libcreateoi/createoi.c:1570-1594 | on any run of the interleaved cache with one caller the polls are the values `getDistance` returned there, and the count is what was sensed between the reset and the last poll |
| Waiting.RunHasPolls | Software/Code/libs/libcreateoi/createoi.c:1130-1143 | every such run with a reset is described by polls |
| Waiting.FiveInARowEnds | Software/Code/libs/libcreateoi/createoi.c:1532-1593 | overcurrent at five polls in a row ends an interruptible wait, whatever `stopWait` had counted before |
| Waiting.Overshoot | Software/Code/libs/libcreateoi/createoi.c:1585-1593 | without interruption a nonzero target is overshot by less than the last poll's distance |
| Waiting.CountIsSum | Software/Code/libs/libcreateoi/createoi.c:1585 | the running count is the sum of all increments so far |
| Transfer.CallsBounded | Software/Code/libs/libcreateoi/createoi.c:1731-1743 | for every schedule of system call results at most three calls more than bytes are made |
| Transfer.CompletesIff | Software/Code/libs/libcreateoi/createoi.c:1731-1743 | for every schedule the transfer completes exactly when enough bytes come before a failure and before the fourth call that moves nothing |
| TransferPromise.AgreesIff | Software/Code/libs/libcreateoi/createoi.c:1714-1743 | for every schedule, code and comments hand over the same bytes and return the same exactly when the transfer is over before either gives up or nothing moves between the two points |
| TransferPromise.StopTogetherIff | Software/Code/libs/libcreateoi/createoi.c:1714-1743 | with three empty calls in a row, nothing moves between the two points exactly when one to three empty calls stand before them, or none does and a fourth one or the end follows |
| TransferPromise.AgreesOnFullSchedule | Software/Code/libs/libcreateoi/createoi.c:1714-1743 | on a schedule that adds up to the request they agree exactly when at most three calls are empty and no three in a row, or three in a row satisfy that condition |
| TransferPromise.GivesUpEarly | Software/Code/libs/libcreateoi/createoi.c:1736-1741 | single bytes with one empty call between any two are cut off after four bytes, though never three in a row are empty |
| TransferPromise.GoesOn | Software/Code/libs/libcreateoi/createoi.c:1736-1741 | three empty calls in a row do not end a transfer |
| Transfer.StopsShortIff | Software/Code/libs/libcreateoi/createoi.c:1733-1754 | no error is reported and bytes are missing exactly when the fourth empty call comes before a failure and before enough bytes |
| Transfer.MovedIs | Software/Code/libs/libcreateoi/createoi.c:1731-1743 | a transfer that does not complete has moved exactly what its calls brought, up to the one that failed |
| Transfer.Port.CWrite | Software/Code/libs/libcreateoi/createoi.c:1725-1754 | exactly a prefix of the buffer is handed over in order, and the result is its length or -1 |
| Transfer.Port.CRead | Software/Code/libs/libcreateoi/createoi.c:1775-1803 | the buffer is filled with exactly a prefix of what comes in, and the rest that waits is discarded |
| Transfer.Robot.Drive | Software/Code/libs/libcreateoi/createoi.c:546-575 | a prefix of the five command bytes is sent; -1 is returned exactly for a failing call, and 0 with bytes missing exactly in the case above |
| Transfer.DriveDecodes | Software/Code/libs/libcreateoi/createoi.c:550-563 | opcode 137, then velocity clamped to 500 and radius clamped to 2000, most significant byte first in two's complement; 0x8000 stands for straight ahead only |
| Transfer.DriveInjective | Software/Code/libs/libcreateoi/createoi.c:550-563 | two commands have the same bytes exactly when their clamped arguments agree |
| SensorPackets.ReadSensor | Software/Code/libs/libcreateoi/createoi.c:989-1089 | the number of a supported packet is the unsigned or two's complement value of its one or two bytes, missing ones counting as 0; a failed read and any other packet give INT_MIN |
| SensorPackets.LabelsAreFormats | Software/Code/libs/libcreateoi/createoi.c:994-1085 | the case labels are exactly the supported packets, each with its format |
| SensorPackets.GetAllSensors | Software/Code/libs/libcreateoi/createoi.c:1296-1346 | no result exactly for an incomplete answer; otherwise entry p - 7 is the decoding of packet p at its offset in the group |
| SensorPackets.GroupBytes | Software/Code/libs/libcreateoi/createoi.c:1319-1340 | entries 0 to 11, 14, 25 and 27 to 31 are the bytes at their place |
| SensorPackets.GroupWords | Software/Code/libs/libcreateoi/createoi.c:1327-1337 | entries 15, 18 to 24 and 26 are unsigned words, most significant byte first |
| SensorPackets.GroupMotion | Software/Code/libs/libcreateoi/createoi.c:1323-1324 | distance and angle are signed words |
| SensorPackets.GroupCurrent | Software/Code/libs/libcreateoi/createoi.c:1327 | the current is a signed word |
| SensorPackets.GroupTemperature | Software/Code/libs/libcreateoi/createoi.c:1328 | the temperature is a signed byte |
| SensorPackets.GroupRequests | Software/Code/libs/libcreateoi/createoi.c:1342-1343 | entries 32 to 35 are signed words |
| SensorPackets.OffsetIs | Software/Code/libs/libcreateoi/createoi.c:1319-1343 | the byte numbers in the code are the sums of the packet sizes before |
| SensorPackets.EncodeUndoesDecode | Software/Code/libs/libcreateoi/createoi.c:1319-1343 | encoding the 36 numbers gives back all 52 bytes |
| SensorPackets.DecodeInjective | Software/Code/libs/libcreateoi/createoi.c:1319-1343 | different images give different numbers |
| SensorPackets.SingleAgreesWithGroup | Software/Code/libs/libcreateoi/createoi.c:989-1089 | on every robot state reading one packet gives its decoding, reading the group gives all of them, and the two agree |
| Mission.Pilot.WaypointControlMode | Software/Code/Samples/driveInnerLoop.c:355-503 | the routine on its globals is one step of the mission machine |
| Mission.AlignedMeans | Software/Code/Samples/driveInnerLoop.c:444 | the yaw test accepts exactly errors below one degree |
| Mission.RunKeepsInv | Software/Code/Samples/driveInnerLoop.c:382-495 | at every call boundary the waypoint number is 0 to 4, homing has number and laps 0, and the target matches the number |
| Mission.HeadsFor | Software/Code/Samples/driveInnerLoop.c:355-395 | the four corners of the square by number, the origin when homing, and the cycle count |
| Mission.HomingCall | Software/Code/Samples/driveInnerLoop.c:419-425 | a homing call steers for the origin with a fifth of the distance as speed |
| Mission.StopsOnlyAtHome | Software/Code/Samples/driveInnerLoop.c:427-456 | 0 is returned exactly in a homing call within a degree, once a homing call of this approach was within 20 mm |
| Mission.MissionVisitsCyclically | Software/Code/Samples/driveInnerLoop.c:410-484 | from any lap count the waypoints are visited 1, 2, 3, 4 cyclically, one lap for every four arrivals |
| Mission.GoesHomeAfterQuota | Software/Code/Samples/driveInnerLoop.c:476-494 | go-home is entered by exactly the last of 4*(max - L + 1) arrivals |
| Mission.MissionLengths | Software/Code/Samples/driveInnerLoop.c:451-455 | the first mission takes 20 arrivals, one after a homecoming 24 |
| Scheduler.TimeSpec.AddMicroseconds | Software/Code/iMain/main.c:31-40 | the deadline is normalised, and exact precisely when the sum fits 64 bits |
| Scheduler.MultiplesAreCeil | Software/Code/iMain/main.c:82-86 | among n ticks there are n/k rounded up multiples of k |
| Scheduler.WrapIsInvisible | Software/Code/iMain/main.c:89-91 | the counter that wraps at 1000 decides like one that never wraps |
| Scheduler.Execute | Software/Code/iMain/main.c:69-100 | n ticks make exactly ceil(n/2) 50 Hz posts and ceil(n/50) 2 Hz posts |
| Scheduler.RatesAreKept | Software/Code/iMain/main.c:44-100 | in every interleaving of scheduler, rate threads and sensor threads each semaphore's value plus completed waits equals its posts, posts are on time, and reads begun never exceed ceil(n/2) |
| Scheduler.TicksGoOn | Software/Code/iMain/main.c:77-95 | three steps of the scheduler make a tick, whatever the other threads do |
| Scheduler.PostsAreAnswered | Software/Code/iMain/main.c:44-100 | when n ticks are over and every thread has had steps enough, in whatever interleaving, each sensor has been read ceil(n/2) times and the status was sent ceil(n/50) times |
| ImuFrame.Check | Software/Code/libs/libIMU/libIMU.c:303-334 | the byte counters accept exactly complete frames with a passing header and both checksums |
| ImuFrame.WrongHeaderIsAccepted | Software/Code/libs/libIMU/libIMU.c:313-334 | a frame with a wrong second header byte passes all checks |
| ImuFrame.OneByteIsCaught | Software/Code/libs/libIMU/libIMU.c:320-334 | changing any one summed byte of an accepted frame is always rejected |
| ImuFrame.TwoBytesUnseenIff | Software/Code/libs/libIMU/libIMU.c:320-334 | changing two summed bytes goes unseen exactly when the changes are opposite modulo 256 and distance times change vanishes modulo 256 |
| ImuFrame.OddSwapIsCaught | Software/Code/libs/libIMU/libIMU.c:320-334 | swapping unequal bytes an odd distance apart is always rejected |
| ImuFrame.AngleRecovered | Software/Code/libs/libIMU/libIMU.c:484-492 | an angle sent modulo a full turn is recovered |
| ImuFrame.AngleNormalisedIff | Software/Code/libs/libIMU/libIMU.c:484-492 | a 16-bit word gives a normalised angle exactly up to one and a half turns |

## Left out

- FastSerial.FastSerial.Begin: rates of 0 or below are not modelled; where the divisor computation divides by zero nothing is said about the divisor, and the product `8 * baud` is not wrapped to 32 bits.
- SerialRx.AvailableIsAPromise: index accesses are single steps; for byte accesses the exact result is RxBytes.PromiseIff.
- SerialRx.RunKeepsInv: index accesses are single steps; module RxBytes has the byte accesses.
- Rings of 512 bytes with byte accesses: apart from RxBytes.PromiseIff nothing is stated about them, neither for drops nor for the transmit side.
- FastSerial.FastSerial.Write: interrupts outside the spin loop of a call are the runs of module SerialTx.
- FastSerial.FastSerial.Read: the contract is for a call without an interrupt inside; interrupted calls are the runs of module SerialRx.
- FastSerial.FastSerial.Peek: for a call without an interrupt inside, as for Read.
- FastSerial.FastSerial.Available: for a call without an interrupt inside, as for Read.
- BetterStreams.BetterStream.Vprintf: an argument of another kind than its conversion is undefined in C; here it ends the call.
- ImuFrame.AngleNormalisedIff: works on hundredths of a degree as integers, as AngleRecovered does.
- ImuFrame.AngleRecovered: works on hundredths of a degree as integers, without the rounding of `float`.
- Mission.Pilot.WaypointControlMode: takes the distance of PositionCommand and the yaw as inputs and does not model the commands sent to the wheels.
- SensorCache.DistanceIsConserved: sums are unbounded integers; the 32-bit overflow of the C cache after some 2000 km is not modelled.
- Waiting.Cache.WaitDistance: the critical sections are single steps here; Waiting.WaitOnRun carries the result to the interleaved runs of module SensorCache.
- IniReader.INIReader.constructor: stores the calls after the scan instead of during it, which no handler of this kind can notice.
- FastSerial flush, the constructor and `begin(long)`: `flush` copies a receive index into the transmit ring and the constructor writes through an uninitialised pointer, so runs start from an opened port.
- The bodies of `__ftoa_engine`, `__ultoa_invert` and the `GETBYTE` assembly are not part of this model.
- Conservation of angles in `waitAngle`, whose print statement discards increments.
- Termination of the threads at shut-down, which depends on posts that may never come.
- The floating-point control laws, the gyro and acceleration scaling, sockets, curses and OpenCV programs, the Simulink and MATLAB code and the SQLite headers.
- GetInteger and GetReal of INIReader, which call `strtol` and `strtod`.
