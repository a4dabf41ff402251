# A verified model of the EMB embedded teaching programs

This project models, in Dafny, the parts of the repository that hold real state, loops and
arithmetic, and proves what they do on all inputs:

- **rprintf** (`lpc2478_rprintf/rprintf.c`): the format interpreter `rprintf2RamRom` with its
  cursor, flags and static scratch buffer; the simple `rprintf1RamRom`; the nibble printers; the
  fixed-width `rprintfNum`; the decimal parser; and the output path through the UART's `putchar`.
- **Soft timers and backlight** (`lpc2478_pwm_backlight`): the ISR tick count, the ten soft timers,
  the PWM duty arithmetic and the main loop, interleaved with interrupts.
- **Touch calibration** (`lpc2478_CAN`): the press/release sampling loop, the coordinates that
  `touch_xyz` reports before and after calibration, and the integer arithmetic of the matrix.
- **Interrupt set-up** (`lpc2478_irq_template`): the VIC registers one write at a time, and nested
  critical sections on the CPSR.

Code that works in place is a class or a method with loops, each proved against a function; what
the source promises is then proved about that function. Modules, from the bottom up:

| module | content |
|---|---|
| `Machine`, `Numerals`, `Rounding` | 32-bit wrap-around, C division and what it cuts off, positional numerals as text |
| `Console` | `rprintfChar` in front of `putchar`, and the bytes on the wire |
| `Directives`, `Render` | the format grammar and its rendering: the specification of `rprintf2RamRom` |
| `Rprintf2`, `FieldLaws` | the interpreter and its refinement proof; what its fields look like |
| `NumberPrinters`, `Rprintf1` | the other printers, and where they agree with each other |
| `Formats`, `SimpleFormats` | what the two printfs print for formats written out byte by byte |
| `SoftTimers`, `Backlight` | `timer.c`, `pwm.c` and `main.c` as interleaved steps |
| `TouchMatrix`, `CalibrationLoop` | `calibrate.c`, `touch.c` and the loop of `calibrateStart` |
| `Vic`, `CriticalSections` | `irq.c` and `VIClowlevel.c` |

## How the machine is modelled

- `int`, `long` and `unsigned` are 32 bits; every truncation is written out with `ToInt`/`ToWord`,
  and signed overflow wraps, as the target's instructions do. Plain `char` is unsigned.
- A format may hold any bytes; a NUL ends it. Reading past the terminator of a format that stops
  inside a directive, and fetching an argument that is missing or of the wrong kind, are undefined
  in C: the model ends the run there with status `PastEnd` or `BadArgument`, after exactly the
  output that precedes the point. No format and no argument list is excluded.
- `%ld` and `%d` read arguments of the same width, so the `l` flag has no effect.
- The digit loops of %u, %o and %x differ only in their base and are one method.
- UART status polling always succeeds eventually; the UART is its transmitted byte sequence.
- The raw readings of the touch panel, the contents of uninitialised variables, the keys and the
  arrival of interrupts are parameters.
- The peripheral clock is 28.8 MHz, as `MAC/lpc2478_pwm_backlight/config.h` sets it, the timers'
  interrupts are 4 and 5, and their priority is 1.
- A shift by a register uses its low byte, and a shift by 32 to 255 gives 0.

## What turned out false of the code

- `%d` of the most negative long prints `-(` (`MinimumPrintsWrong`); every other long is printed
  right (`SignedTextDenotes`).
- A field is not always max(width, body) characters; `FieldLength` gives the exact condition. A
  width written out in the format fails from 2^31 beyond the body on (`LiteralWidth`): from
  2147483649 to 2^32, `%d` of 0 is one character wide (`LiteralWidthOverflows`). A width from `*` fails
  near the most negative int, where the room wraps to two billion spaces (`StarWidthOverflows`).
- `rprintf1RamRom` prints a wrong `%d` beyond 99999 in magnitude (`ShortSignedDenotes`), such as
  `A0000` for 100000 (`HundredThousandPrintsWrong`).
- Its `%x` prints only the low 16 bits, so it is right exactly below 2^16 (`SimpleHexDenotes`);
  0x10000 prints `0000` (`HexPrintsWrong`).
- A line feed is translated twice on its way out: `rprintfChar` promises CR LF and CR CR LF is sent
  (`LineFeedOnWire`), which is right exactly for text without line feeds (`TranslatedTwice`).
- The precision that the comment on `rprintf2RamRom` promises is one only after a pad flag or a width
  (`WritableKnown`): a `.` right after `%` is another pad flag (`DotPads`), so `%.3s` prints all of a
  longer string (`DotString`, `DotThreeString`).
- The comment with the examples of `rprintfNum` shows the padding before the sign. The code puts the
  sign first: 1234 in six characters is `+ 1234` (`SignExample`). What the comment shows is printed
  exactly when the digits fill the field, or fit it and the pad byte is the sign
  (`SignBeforeDigits`).
- `initTimer` does not set up the milliseconds asked for, because it divides the clock by 1000 - 1:
  `MatchCountExact` gives the clocks for which it does, `TenMillisecondsMissed` what happens on this
  board.
- `setPwmDc` overflows for long periods: for every period from 42949673 on, and no shorter one, some
  larger duty cycle gets a larger MR1 (`MatchAntitone`, `MatchExact`, `MatchOverflows`).
- UP and then DOWN does not always restore the backlight. Besides a saturated UP it fails for the
  first keys, since MR1 starts at 0 and not at the value for duty cycle 0 (`UpThenDown`,
  `FirstKeys`).
- A poll of the backlight loop that comes too late is missed, because the elapsed time overflows
  (`PollMissed`); `PollFires` gives the exact condition.
- The comment on `setCalibrationMatrix` warns of overflow above 10 bits; the fields are 64 bits wide
  and `SumFits` shows 16-bit digitizers are safe.
- `getDisplayPoint` does not return the point "closest to true" but the true point truncated toward
  zero (`CalibrationRecovers`); it is the closest one exactly when at most half a pixel is cut off
  (`DisplayedPixel`), which fails at two thirds (`ClosestPixelMissed`). `touch_xyz` keeps 32 bits of
  it, which is exact if it fits (`CalibratedReport`, `ReportedPixel`) and otherwise reports a wrapped
  coordinate (`ReportOverflows`).
- Calibrating a driver that is calibrated already need not work. Nothing clears its flag, so the
  loop captures points of the old matrix: `RecalibrationLands` gives the exact condition under which
  the touches still land, `RecalibrationIsExact` when the new factors are right, and
  `RecalibrationMisses` three touches that go wrong.
- `touch_calibrate` marks the driver as calibrated even when the three touches were on one line and
  there is no matrix; from then on `touch_xyz` reports an uninitialised variable
  (`FailedCalibrationReportsStack`).
- `install_irq` is not without effect when it rejects a number: it disables a slot exactly when the
  low byte is below 32 (`RejectedInstall`). Negative numbers are not rejected at all. Those that
  never leave an enabled slot without its latest install are exactly the `Tearless` ones
  (`NeverTorn`, `OthersTear`); those that leave everything as promised are exactly the `Harmless`
  ones (`TraceExact`, `OthersSpoil`). -60 stores the handler address in VICIntEnable, and -123 stores
  the priority in VICIntEnClr, which disables an installed slot (`NegativeExamples`,
  `InstallLost`).

## Model

| member | source | states |
|---|---|---|
| Numerals.NumeralIsCanonical | lpc2478_rprintf/rprintf.c:463-483 | the reference numeral has only digits of its base, no leading zero except for 0, and denotes the number |
| Numerals.NumeralIsUnique | lpc2478_rprintf/rprintf.c:463-483 | any canonical digit string is the numeral of the number it denotes |
| Numerals.NumeralLength | lpc2478_rprintf/rprintf.c:463-483 | k digits are enough exactly for the numbers below base^k |
| Numerals.DigitTable | lpc2478_rprintf/rprintf.c:463-483 | the digits are 0 to 9 and a to f, or A to F, written out as bytes |
| Numerals.LastGlyph | lpc2478_rprintf/rprintf.c:439-441 | one turn of a digit loop peels the last digit off the numeral, and ends with it |
| Console.Console.Putchar | lpc2478_rprintf/uart.c:55-64 | a line feed goes out as CR LF, any other byte as itself |
| Console.Console.RprintfChar | lpc2478_rprintf/rprintf.c:54-61 | through putchar the wire stays the translation of the logical characters, one more of them |
| Console.Console.PrintToNul | lpc2478_rprintf/rprintf.c:72-73 | prints the bytes before the terminator |
| Console.Console.RprintfStr | lpc2478_rprintf/rprintf.c:65-74 | prints a string up to its terminator, and nothing for a null pointer |
| Console.Console.Pad | lpc2478_rprintf/rprintf.c:446-447 | a `while (n-- > 0)` loop prints max(n, 0) pad bytes |
| Console.WireTrace | lpc2478_rprintf/rprintf.c:54-61 | the wire is longer than the text by two bytes per line feed, and equal to it once carriage returns are deleted from both |
| Console.WireLineEnds | lpc2478_rprintf/uart.c:55-64 | every line feed on the wire is preceded by two carriage returns |
| Console.WireConcat | lpc2478_rprintf/rprintf.c:54-61 | the wire of two texts joined is the wires joined |
| Console.TranslatedTwice | lpc2478_rprintf/rprintf.c:54-61 | the wire is what one translation gives if and only if the text has no line feed |
| Console.LineFeedOnWire | lpc2478_rprintf/rprintf.c:54-61 | a line feed goes out as CR CR LF |
| Directives.ScanUnparse | lpc2478_rprintf/rprintf.c:376-426 | writing a directive record as text and scanning it back gives the record, stopped at the letter, if and only if no absent part is mimicked by what follows |
| Directives.WritableKnown | lpc2478_rprintf/rprintf.c:382-414 | for a real conversion letter that means: a zero width needs the pad flag, a precision needs a pad flag or a width before it |
| Directives.ScannedIsWritable | lpc2478_rprintf/rprintf.c:376-426 | every directive the scanner can produce for a real letter can be written back |
| Directives.ScanNormalises | lpc2478_rprintf/rprintf.c:376-426 | respelling a scanned directive canonically never changes how it scans |
| Directives.ScanLocal | lpc2478_rprintf/rprintf.c:376-426 | a directive with its letter scans the same whatever text follows |
| Directives.ParseFormat | lpc2478_rprintf/rprintf.c:367-426 | writing any list of items as a format and parsing it gives the list back |
| Directives.ParseConcat | lpc2478_rprintf/rprintf.c:358-367 | a format that does not end inside a directive parses the same in front of any other |
| Directives.ParseTerminated | lpc2478_rprintf/rprintf.c:367 | a format is read up to its terminator, even when that cuts a directive short |
| Render.PrintConcat | lpc2478_rprintf/rprintf.c:525-527 | printing two formats joined with their arguments joined prints the first and then the second |
| Render.RenderDoneExactly | lpc2478_rprintf/rprintf.c:389-413 | a format prints to its end if and only if it is complete and the arguments start with its signature (one per `*`, one per d, o, x, u, c, s), which is exactly what it consumes |
| Render.ResumeStep | lpc2478_rprintf/rprintf.c:367-529 | a loop that renders one item after another stays on its way to the same outcome |
| Render.RenderItemFrame | lpc2478_rprintf/rprintf.c:428-523 | arguments beyond those an item consumes change nothing and are handed on |
| Rprintf2.AtoiRamRom | lpc2478_rprintf/rprintf.c:543-553 | the value of the leading digit run, modulo 2^32, for digit runs of any length |
| Rprintf2.Formatter.Accept | lpc2478_rprintf/rprintf.c:377-388 | one flag byte is consumed exactly when it is there |
| Rprintf2.Formatter.SkipDigits | lpc2478_rprintf/rprintf.c:397-398 | the cursor moves over exactly the longest digit run |
| Rprintf2.Formatter.ReadAmount | lpc2478_rprintf/rprintf.c:389-399 | a width or precision from `*`, from digits or kept, as scanning the text and taking the argument give it |
| Rprintf2.Formatter.ReadFlags | lpc2478_rprintf/rprintf.c:377-388 | the left and pad flags of the scanned directive |
| Rprintf2.Formatter.ReadPrecision | lpc2478_rprintf/rprintf.c:400-414 | the precision of the scanned directive, or the old value |
| Rprintf2.Formatter.ReadEnd | lpc2478_rprintf/rprintf.c:415-424 | the '#' and 'l' flags of the scanned directive, stopping at the letter |
| Rprintf2.Formatter.ScanDirective | lpc2478_rprintf/rprintf.c:376-426 | the cursor code computes the fields of the scanned record and takes its arguments in order |
| Rprintf2.Formatter.UnsignedDigits | lpc2478_rprintf/rprintf.c:461-489 | the buffer read backwards is the canonical numeral, in at most 11 bytes |
| Rprintf2.Formatter.SignedDigits | lpc2478_rprintf/rprintf.c:439-441 | the buffer read backwards is the decimal numeral, in at most 10 bytes; '(' for the one negative input |
| Rprintf2.Formatter.Append | lpc2478_rprintf/rprintf.c:442-443 | one more byte in the buffer, which is never used beyond 12 |
| Rprintf2.Formatter.EmitBackwards | lpc2478_rprintf/rprintf.c:448-449 | prints the buffer reversed |
| Rprintf2.Formatter.EmitField | lpc2478_rprintf/rprintf.c:490-498 | padding and body on the sides the flags ask for |
| Rprintf2.Formatter.ConvertSigned | lpc2478_rprintf/rprintf.c:429-453 | the %d field of the next argument, consuming it |
| Rprintf2.Formatter.ConvertUnsigned | lpc2478_rprintf/rprintf.c:454-499 | the %o, %x or %u field of the next argument, consuming it |
| Rprintf2.Formatter.EmitString | lpc2478_rprintf/rprintf.c:512-516 | the prefix of the string that the precision allows |
| Rprintf2.Formatter.ConvertString | lpc2478_rprintf/rprintf.c:504-520 | the %s field of the next argument, "(nil)" for a null pointer |
| Rprintf2.Formatter.Convert | lpc2478_rprintf/rprintf.c:428-524 | the switch prints what the record's conversion prescribes, and fails exactly when its argument is missing |
| Rprintf2.Formatter.ResetFlags | lpc2478_rprintf/rprintf.c:525-527 | all flags are back at their initial values |
| Rprintf2.Formatter.PrintDirective | lpc2478_rprintf/rprintf.c:376-528 | one directive is rendered as specified and leaves the flags reset |
| Rprintf2.Formatter.PrintItem | lpc2478_rprintf/rprintf.c:367-529 | one turn of the loop renders one item and moves to the next |
| Rprintf2.Formatter.Run | lpc2478_rprintf/rprintf.c:367-529 | the loop prints, consumes and returns what the specification gives for the whole format |
| Rprintf2.Formatter.Rprintf2RamRom | lpc2478_rprintf/rprintf.c:351-533 | for every format and argument list the interpreter prints exactly what parsing the format into items and rendering each gives, stops where that stops, leaves the same arguments, and terminates |
| FieldLaws.SignedTextDenotes | lpc2478_rprintf/rprintf.c:434-449 | %d is the sign and the canonical numeral of its argument if and only if that is not the most negative long |
| FieldLaws.MinimumPrintsWrong | lpc2478_rprintf/rprintf.c:429-453 | the format "%d" prints "-(" for the most negative long |
| FieldLaws.UnsignedTextDenotes | lpc2478_rprintf/rprintf.c:461-489 | %u, %o, %x are the canonical numeral of the argument after the prefix that '#' asks for |
| FieldLaws.BodyBound | lpc2478_rprintf/rprintf.c:33 | no conversion puts more than 12 bytes in the scratch buffer, and 12 only %#o from 2^30 on |
| FieldLaws.FieldLength | lpc2478_rprintf/rprintf.c:444-452 | a field is max(width, body) long if and only if the room left over is representable or wraps to nothing |
| FieldLaws.RoomFitsShort | lpc2478_rprintf/rprintf.c:444 | for bodies below 2^31 bytes that means the room is not below the most negative int |
| FieldLaws.LiteralWidth | lpc2478_rprintf/rprintf.c:389-399 | a width written in the format is met if and only if it exceeds the body by less than 2^31 |
| FieldLaws.LiteralWidthOverflows | lpc2478_rprintf/rprintf.c:389-399 | with a width from 2^31 + 1 to 2^32 the format prints the one character of 0 |
| FieldLaws.StarWidthOverflows | lpc2478_rprintf/rprintf.c:389-393 | "%*d" with the most negative width prints 2^31 characters |
| FieldLaws.FieldSides | lpc2478_rprintf/rprintf.c:490-498 | the body is in one piece, flush to the side asked for, the rest is padding |
| FieldLaws.StringFieldLaw | lpc2478_rprintf/rprintf.c:504-519 | for strings of any length, a field is max(width - length, 0) plus the shown prefix long if and only if the room fits, with the prefix intact and flush |
| FieldLaws.NumericDirective | lpc2478_rprintf/rprintf.c:429-499 | a whole numeric directive prints its argument's text, as wide, on the side and with the pad its flags ask for |
| FieldLaws.StringDirective | lpc2478_rprintf/rprintf.c:504-520 | the same for a whole string directive |
| FieldLaws.AtoiOfDecimal | lpc2478_rprintf/rprintf.c:543-553 | parsing the decimal text of a number gives the number back if and only if it is below 2^31 |
| Formats.LiteralText | lpc2478_rprintf/rprintf.c:367-373 | text without '%' prints itself and takes no argument |
| Formats.TerminatedFormat | lpc2478_rprintf/rprintf.c:367 | nothing after the terminator is printed |
| Formats.SpellingIsFormat | lpc2478_rprintf/rprintf.c:376-426 | a directive is '%', then '-', '0', width, '.' and precision, '#', 'l' as far as present, and its letter, byte by byte |
| Formats.NumberFormat | lpc2478_rprintf/rprintf.c:376-499 | %d, %o, %u and %x with any flags, width and precision print the number's text in its base, flush to its side of a field as wide as asked, padded with 0 or spaces |
| Formats.StringFormat | lpc2478_rprintf/rprintf.c:376-520 | %s with any flags, width and precision prints the bytes before the terminator in order, cut to the precision, and "(nil)" for a null pointer |
| Formats.BareString | lpc2478_rprintf/rprintf.c:504-520 | "%s" prints the string, up to 32766 bytes of it |
| Formats.CharFormat | lpc2478_rprintf/rprintf.c:500-503 | %c prints the low byte of its argument whatever its flags |
| Formats.PercentFormat | lpc2478_rprintf/rprintf.c:521-523 | %% prints a percent sign |
| Formats.UnknownFormat | lpc2478_rprintf/rprintf.c:428-524 | a letter without meaning prints nothing and takes nothing |
| Formats.ArgumentMissing | lpc2478_rprintf/rprintf.c:389-431 | a directive whose k-th argument is missing or of the wrong kind prints nothing and has used up those before it |
| Formats.FormatCutShort | lpc2478_rprintf/rprintf.c:426-428 | a format that ends inside a directive takes the arguments of its '*' and prints nothing |
| Formats.DotPads | lpc2478_rprintf/rprintf.c:382-388 | a '.' right after '%' or "%-" means the same as a '0' there |
| Formats.DotString | lpc2478_rprintf/rprintf.c:382-399 | so in "%.3s" and its like the number is a width and the string is not cut |
| Formats.DotThreeString | lpc2478_rprintf/rprintf.c:382-399 | "%.3s" prints the whole of any longer string |
| NumberPrinters.Rprintfu04 | lpc2478_rprintf/rprintf.c:114-118 | the low hex digit |
| NumberPrinters.Rprintfu08 | lpc2478_rprintf/rprintf.c:122-127 | the low two hex digits |
| NumberPrinters.Rprintfu16 | lpc2478_rprintf/rprintf.c:131-136 | the low four hex digits |
| NumberPrinters.Rprintfu32 | lpc2478_rprintf/rprintf.c:140-145 | all eight hex digits |
| NumberPrinters.FixedDenotes | lpc2478_rprintf/rprintf.c:114-145 | k printed digits denote the number modulo base^k |
| NumberPrinters.FixedGlyphs | lpc2478_rprintf/rprintf.c:114-118 | every position holds 0 to 9 or A to F |
| NumberPrinters.FixedSplit | lpc2478_rprintf/rprintf.c:122-145 | printing j + k digits is printing the high j and then the low k |
| NumberPrinters.FillDigits | lpc2478_rprintf/rprintf.c:177-198 | the buffer filled from the right holds the last digits of the magnitude in any base, padded, without leaving its 32 bytes |
| NumberPrinters.RprintfNum | lpc2478_rprintf/rprintf.c:159-223 | exactly numDigits characters in any base: sign first, then padding, then the low digits of the magnitude, each modulo 16 |
| NumberPrinters.BodyIsAligned | lpc2478_rprintf/rprintf.c:184-198 | in the bases 2 to 16 that is the canonical numeral padded on the left, or its last digits |
| NumberPrinters.DigitPrinted | lpc2478_rprintf/rprintf.c:159-223 | each character from the right, in any base: the digit of the magnitude at that position modulo 16, or the pad byte where there is none |
| NumberPrinters.SignPrinted | lpc2478_rprintf/rprintf.c:200-215 | a signed print starts with '-' exactly for negative numbers, '+' exactly for positive ones and a space exactly for 0 |
| NumberPrinters.PaddingPrinted | lpc2478_rprintf/rprintf.c:186-215 | between the sign and the numeral there is only the pad byte |
| NumberPrinters.NumTextComplete | lpc2478_rprintf/rprintf.c:184-198 | the whole numeral appears if and only if it is below base^digits |
| NumberPrinters.NumTextReadsBack | lpc2478_rprintf/rprintf.c:167-215 | sign character and digits of a signed print that fits give the number back, the most negative long included |
| NumberPrinters.SignBeforeDigits | lpc2478_rprintf/rprintf.c:150-157 | the sign stands after the padding, as the comment shows it, if and only if the digits fill the field, or fit it and the pad byte is the sign |
| NumberPrinters.SignExample | lpc2478_rprintf/rprintf.c:156 | 1234 signed in six characters is "+ 1234", where the comment has " +1234" |
| NumberPrinters.ZeroPadded | lpc2478_rprintf/rprintf.c:186-198 | with zero padding the output is the fixed-width digits |
| NumberPrinters.CascadeIsDivision | lpc2478_rprintf/rprintf.c:140-223 | rprintfu32(n) and rprintfNum(16, 8, FALSE, '0', n) print the same eight characters, which denote n |
| Rprintf1.ConversionLoop | lpc2478_rprintf/rprintf.c:325-331 | the top-down division loop prints the nibble of the top quotient and then the fixed digits of the remainder |
| Rprintf1.TopPower | lpc2478_rprintf/rprintf.c:323 | the starting divisor is the largest power of ten not above the value, at most 10000 |
| Rprintf1.PrintSigned | lpc2478_rprintf/rprintf.c:311-331 | %d is the numeral up to 99999 and an overflowing top position beyond |
| Rprintf1.DivTextIsDecimal | lpc2478_rprintf/rprintf.c:323-331 | from the right starting divisor the top-down loop prints the canonical decimal numeral |
| Rprintf1.PrintDirective | lpc2478_rprintf/rprintf.c:307-332 | one directive of the simple printf; an unknown letter prints itself |
| Rprintf1.PrintItem | lpc2478_rprintf/rprintf.c:295-333 | one item of a format and the move to the next |
| Rprintf1.Rprintf1RamRom | lpc2478_rprintf/rprintf.c:285-335 | for every format and argument list the loop prints what the item-by-item specification gives |
| Rprintf1.SignedAgreesExactly | lpc2478_rprintf/rprintf.c:311-331 | the two printfs print the same %d if and only if the magnitude is at most 99999 |
| Rprintf1.ShortSignedDenotes | lpc2478_rprintf/rprintf.c:311-331 | %d of the simple printf is the sign and the canonical numeral if and only if the magnitude is at most 99999 |
| Rprintf1.HundredThousandPrintsWrong | lpc2478_rprintf/rprintf.c:285-335 | the format "%d" prints "A0000" for 100000 |
| Rprintf1.SimpleHexIsU16 | lpc2478_rprintf/rprintf.c:312-331 | %x prints what rprintfu16 prints for the low 16 bits |
| Rprintf1.SimpleHexDenotes | lpc2478_rprintf/rprintf.c:312-331 | %x denotes its argument if and only if that is below 2^16 |
| Rprintf1.HexPrintsWrong | lpc2478_rprintf/rprintf.c:285-335 | the format "%x" prints "0000" for 0x10000 |
| Rprintf1.PrintfsAgree | lpc2478_rprintf/rprintf.c:285-533 | on formats with bare %d (five digits at most), %c and %% the two printfs are the same function, error cases included |
| SimpleFormats.LiteralText1 | lpc2478_rprintf/rprintf.c:295-305 | text without '%' prints itself |
| SimpleFormats.TerminatedFormat1 | lpc2478_rprintf/rprintf.c:297-303 | nothing after the terminator is printed |
| SimpleFormats.Print1Concat | lpc2478_rprintf/rprintf.c:295-333 | two formats joined with their arguments joined print one after the other |
| SimpleFormats.CharFormat1 | lpc2478_rprintf/rprintf.c:309-310 | %c prints the low byte of its argument |
| SimpleFormats.OtherFormat1 | lpc2478_rprintf/rprintf.c:310 | any other letter, '%' among them, prints itself |
| SimpleFormats.HexFormat1 | lpc2478_rprintf/rprintf.c:312-331 | %x prints four digits 0 to F that denote the low half of its argument |
| SimpleFormats.SignedFormat1 | lpc2478_rprintf/rprintf.c:311-331 | %d prints sign and numeral up to 99999; beyond, the last four digits and the low nibble of what is left before them |
| SimpleFormats.ArgumentMissing1 | lpc2478_rprintf/rprintf.c:309-315 | a missing argument ends the run with nothing printed for it |
| SimpleFormats.FormatCutShort1 | lpc2478_rprintf/rprintf.c:307-310 | a format that ends in '%' prints its terminator |
| SoftTimers.Timers.constructor | lpc2478_pwm_backlight/timer.c:14-16 | all statics are zero |
| SoftTimers.Timers.Tmr0Handler | lpc2478_pwm_backlight/timer.c:26-35 | one tick, with wrap-around, the timer's flags cleared and the interrupt acknowledged |
| SoftTimers.Timers.Tmr1Handler | lpc2478_pwm_backlight/timer.c:40-50 | timer 1's tick does not touch the soft timers |
| SoftTimers.Timers.InitTimer | lpc2478_pwm_backlight/timer.c:65-102 | timer 0 or 1 gets its registers and its resolution, and interrupt 4 or 5 is enabled with the handler and priority 1, all other slots kept; any other timer is rejected and nothing changes |
| SoftTimers.MatchCountExact | lpc2478_pwm_backlight/timer.c:72 | the match count is the interval asked for if and only if the clock is q * 1000 Hz with q below 999 and the count fits 32 bits |
| SoftTimers.MatchCountWraps | lpc2478_pwm_backlight/timer.c:72 | in any case it is the interval times the clock divided by 999, modulo 2^32 |
| SoftTimers.TenMillisecondsMissed | lpc2478_pwm_backlight/timer.c:72 | at 28.8 MHz ten milliseconds are 288280 counts instead of 288000 |
| SoftTimers.Timers.Timer | lpc2478_pwm_backlight/timer.c:185-199 | a reset stores the current product in that timer only; a read returns the difference; numbers above the guard do nothing |
| SoftTimers.ElapsedIsTicksSince | lpc2478_pwm_backlight/timer.c:185-199 | in every interleaving a timer reads resolution times the ticks since its last reset, modulo 2^32, whatever has wrapped |
| SoftTimers.ElapsedExactly | lpc2478_pwm_backlight/timer.c:185-199 | that reading is the exact elapsed time if and only if it fits an int |
| SoftTimers.ElapsedSinceReset | lpc2478_pwm_backlight/timer.c:185-199 | the same from any state at all, counting the stretch after a reset |
| SoftTimers.TimersAreIndependent | lpc2478_pwm_backlight/timer.c:188-196 | deleting all events of other timers from a history changes no reading of this one |
| Backlight.Pwm.InitPwm | lpc2478_pwm_backlight/pwm.c:19-48 | only output 1 of unit 1 is set up, every register with its value; otherwise nothing changes |
| Backlight.SelectPwmBits | lpc2478_pwm_backlight/pwm.c:30-31 | pin 1.18 becomes the PWM output and no other pin changes |
| Backlight.Pwm.SetPwmDc | lpc2478_pwm_backlight/pwm.c:50-63 | MR1 from MR0 and the duty cycle, or failure with nothing changed |
| Backlight.MatchExact | lpc2478_pwm_backlight/pwm.c:57 | MR1 is the exact share of the period if and only if the product fits 32 bits |
| Backlight.MatchWrapped | lpc2478_pwm_backlight/pwm.c:57 | for every period and duty cycle MR1 is the hundredth part of the product modulo 2^32 |
| Backlight.MatchAntitone | lpc2478_pwm_backlight/pwm.c:57 | a larger duty cycle never gives a larger MR1 if and only if 100 times the period fits 32 bits, and then MR1 stays within the period |
| Backlight.MatchOverflows | lpc2478_pwm_backlight/pwm.c:57 | at period 42949673 the duty cycle 0 gives MR1 0 |
| Backlight.Program.constructor | lpc2478_pwm_backlight/main.c:33-47 | interrupts are enabled with resolution 10, MR0 0x3000 and MR1 0, before the soft timers are reset; slot 4 alone is enabled, with the timer's handler and priority 1 |
| Backlight.Program.Interrupt | lpc2478_pwm_backlight/timer.c:26-35 | an interrupt is one tick of the whole system and leaves the controller set up |
| Backlight.Program.LoopStep | lpc2478_pwm_backlight/main.c:52-78 | each step of the program, the two resets before the loop included, is a step of the state machine |
| Backlight.Program.Drive | lpc2478_pwm_backlight/main.c:52-78 | any interleaving of interrupts and program steps drives the program through the corresponding run of the state machine, with the controller set up throughout |
| Backlight.GapIsFewest | lpc2478_pwm_backlight/main.c:60 | the gap is the fewest ticks that exceed the interval, and no wrapped reading can fire earlier |
| Backlight.GapAtTenMilliseconds | lpc2478_pwm_backlight/main.c:44 | at 10 ms the gap is 21 ticks |
| Backlight.LoopElapsed | lpc2478_pwm_backlight/main.c:60-63 | every soft timer reads the ticks since its own last reset, wherever ticks fell |
| Backlight.StartUp | lpc2478_pwm_backlight/main.c:52-54 | soft timer 0 and then soft timer 1 are reset before the first poll, wherever ticks fell |
| Backlight.ServicesAreSpaced | lpc2478_pwm_backlight/main.c:57-63 | in every run, at each reset at least a gap of ticks has passed since the previous one |
| Backlight.ServicesAreBounded | lpc2478_pwm_backlight/main.c:57-63 | k services need at least k gaps of ticks |
| Backlight.PollFires | lpc2478_pwm_backlight/main.c:60 | in every run a poll starts a service if and only if the elapsed time, truncated to an int, exceeds the interval |
| Backlight.PollFiresInTime | lpc2478_pwm_backlight/main.c:60 | before the elapsed time overflows, that is if and only if a gap of ticks has passed |
| Backlight.PollMissed | lpc2478_pwm_backlight/main.c:60 | a run in which far more than a gap has passed and the poll does nothing |
| Backlight.DutyCycle | lpc2478_pwm_backlight/main.c:65-76 | in every run the duty cycle is a multiple of 5 in 0..100 and MR1 its exact share from the first served key on, 0 before |
| Backlight.DutyFollowsKeys | lpc2478_pwm_backlight/main.c:65-76 | in every run the duty cycle is the fold of the served keys: 5 up to 100 for each UP, 5 down to 0 for each DOWN |
| Backlight.MatchFollowsKeys | lpc2478_pwm_backlight/main.c:65-76 | and MR1 is its share of 0x3000 once an UP or DOWN was among them |
| Backlight.OnlyUps | lpc2478_pwm_backlight/main.c:65-69 | k presses of UP from the start give min(5k, 100) |
| Backlight.KeysPerService | lpc2478_pwm_backlight/main.c:60-65 | the keys are read once for each reset of the timer |
| Backlight.UpThenDown | lpc2478_pwm_backlight/main.c:65-76 | in every run UP then DOWN restores everything if and only if the UP is not saturated and some key was served before |
| Backlight.DownThenUp | lpc2478_pwm_backlight/main.c:65-76 | in every run DOWN then UP restores everything if and only if the DOWN is not saturated |
| Backlight.NotProgrammed | lpc2478_pwm_backlight/main.c:65-76 | before the first served key the duty cycle is 0 |
| Backlight.FirstKeys | lpc2478_pwm_backlight/main.c:65-76 | the first UP and DOWN leave MR1 at the whole period instead of 0 |
| TouchMatrix.Touch.SetCalibrationMatrix | lpc2478_CAN/drivers/calibrate.c:215-248 | the seven factors, or only the zero divider and failure |
| TouchMatrix.Touch.TouchCalibrate | lpc2478_CAN/drivers/touch.c:172-196 | the driver counts as calibrated in either case, with the new matrix or a zero divider |
| TouchMatrix.Touch.GetDisplayPoint | lpc2478_CAN/drivers/calibrate.c:309-335 | the point the factors give, or failure with the caller's point untouched when there is no matrix |
| TouchMatrix.Touch.TouchXyz | lpc2478_CAN/drivers/touch.c:238-250 | the raw reading before calibration, the display point after it, and an uninitialised one if there is no matrix |
| TouchMatrix.FailedCalibrationReportsStack | lpc2478_CAN/drivers/touch.c:238-245 | after a failed calibration every report is what the stack held |
| TouchMatrix.Barycentric | lpc2478_CAN/drivers/calibrate.c:152-186 | the triangle weights behind the formulas are barycentric coordinates times the divider |
| TouchMatrix.Weighted | lpc2478_CAN/drivers/calibrate.c:321-328 | the numerator of a display coordinate is the weighted sum of its three reference values |
| TouchMatrix.FactorsAreAffine | lpc2478_CAN/drivers/calibrate.c:33-76 | the factors agree everywhere with any affine map that has the three given values |
| TouchMatrix.CalibrationRecovers | lpc2478_CAN/drivers/calibrate.c:309-335 | if the screen is any affine distortion of the display, every touch is reported at its true point truncated toward zero |
| TouchMatrix.IntegralTouchIsExact | lpc2478_CAN/drivers/calibrate.c:309-335 | every touch whose true point is integral is reported exactly |
| TouchMatrix.DisplayedPixel | lpc2478_CAN/drivers/calibrate.c:254-258 | every display point is less than one pixel from the true point, and the closest pixel if and only if at most half a pixel was cut off |
| TouchMatrix.CalibratedReport | lpc2478_CAN/drivers/touch.c:238-245 | after a successful calibration the report is the true point truncated toward zero, if and only if both coordinates fit an int |
| TouchMatrix.ReportedPixel | lpc2478_CAN/drivers/touch.c:238-245 | a reported coordinate is less than one pixel off if and only if it fits an int, and the closest if and only if besides at most half a pixel was cut off |
| TouchMatrix.ClosestPixelMissed | lpc2478_CAN/drivers/calibrate.c:254-258 | a touch with true x 2/3 is reported at 0, which is not the closest |
| Rounding.TruncWithinOne | lpc2478_CAN/drivers/calibrate.c:321-328 | C division misses the quotient by the remainder of the magnitudes, less than one unit |
| Rounding.TruncOfEqualRatios | lpc2478_CAN/drivers/calibrate.c:321-328 | it depends only on the ratio of its operands |
| Rounding.TruncStored | lpc2478_CAN/drivers/touch.c:243-244 | a quotient stored in 32 bits is a positive v if and only if it exceeds v by a fraction, modulo 2^32 |
| Rounding.TruncClosestExactly | lpc2478_CAN/drivers/calibrate.c:321-328 | no integer is closer if and only if twice that remainder is at most the divisor |
| Rounding.StoredMiss | lpc2478_CAN/drivers/touch.c:243-244 | the same two laws for a quotient stored in 32 bits, exact if and only if it fits |
| TouchMatrix.CalibrationInterpolates | lpc2478_CAN/drivers/calibrate.c:215-335 | the three calibration touches are reported at their reference points if and only if they are not on one line |
| TouchMatrix.ExactOnlyForCaptured | lpc2478_CAN/drivers/calibrate.c:215-248 | the factors take three points exactly to the references if and only if these are the points they were computed from |
| TouchMatrix.ReportedWhenDrifting | lpc2478_CAN/drivers/touch.c:238-245 | another point is reported at a captured point's reference if and only if the factors move it from there by a fraction of a pixel, not backwards, modulo 2^32 |
| TouchMatrix.FactorsFit | lpc2478_CAN/drivers/calibrate.c:222-244 | all factors of 16-bit points stay far inside 64 bits |
| TouchMatrix.SumFits | lpc2478_CAN/drivers/calibrate.c:321-328 | so does the sum that is divided |
| CalibrationLoop.RunStartsAreAll | lpc2478_CAN/calib_app.c:254-263 | the specification lists exactly the starts of maximal pressed runs, in order |
| CalibrationLoop.RunStartsPrefix | lpc2478_CAN/calib_app.c:248-298 | later samples never change which runs came first |
| CalibrationLoop.ReadingsCaptured | lpc2478_CAN/calib_app.c:254-261 | a run starts exactly where the pressure read turns nonzero |
| CalibrationLoop.Calibrator.Capture | lpc2478_CAN/calib_app.c:263-297 | the switch is entered with calibPoint in 0..2 and stores the new run's point in that place |
| CalibrationLoop.Calibrator.Take | lpc2478_CAN/calib_app.c:252-297 | the loop body captures a sample exactly when it starts a run |
| CalibrationLoop.Calibrator.Begin | lpc2478_CAN/calib_app.c:222-244 | whatever the statics held, the loop starts with no run seen and the first point drawn |
| CalibrationLoop.Calibrator.CalibrateStart | lpc2478_CAN/calib_app.c:217-299 | over every stream of raw readings and from every driver state, scr1..scr3 are the first reports of the first three runs, the loop ends exactly as the third begins, and (15, 282), (120, 62) and (220, 262) are drawn in order before touch_calibrate is called once with the points in order |
| CalibrationLoop.CalibratedTouchesLand | lpc2478_CAN/calib_app.c:265-296 | end to end, for a driver not yet calibrated: the three raw touches are reported at the drawn points from then on if and only if they are not on one line |
| CalibrationLoop.RawIsCaptured | lpc2478_CAN/drivers/touch.c:246-250 | a driver not yet calibrated captures the raw readings |
| CalibrationLoop.LandsWhenCaptured | lpc2478_CAN/calib_app.c:265-296 | what was captured is reported at the references, whatever the stack holds, if and only if it is not on one line |
| CalibrationLoop.ReportOverflows | lpc2478_CAN/drivers/touch.c:243-244 | three captured touches, not on one line, after which a touch is reported at x = -1880645522 |
| CalibrationLoop.RecalibrationLands | lpc2478_CAN/calib_app.c:265-296 | for any driver, the raw touches are reported at the drawn points from then on if and only if the new factors make of what the old matrix displaced them by a fraction of a pixel, not backwards, modulo 2^32 |
| CalibrationLoop.RecalibrationIsExact | lpc2478_CAN/calib_app.c:265-296 | the new factors are right for the raw touches if and only if the captured points were the raw ones |
| CalibrationLoop.RecalibrationMisses | lpc2478_CAN/calib_app.c:265-296 | a calibrated driver and three touches, not on one line, that are reported elsewhere afterwards |
| Vic.AddressesDoNotAlias | lpc2478_irq_template/irq.c:37-38 | a computed vector or priority address reaches that slot's register and no other |
| Vic.RegisterMap | lpc2478_irq_template/lpc2468.h:16-22 | the addresses written, as numbers |
| Vic.BitsOfShift | lpc2478_irq_template/irq.c:59 | `1 << n` selects the slot in the low byte of n alone, and nothing from 32 on |
| Vic.InitDisables | lpc2478_irq_template/irq.c:24-43 | from its first write on init_VIC has every slot disabled |
| Vic.InitClears | lpc2478_irq_template/irq.c:24-43 | init_VIC ends with nothing enabled, all vectors 0, all priorities 15, whatever the registers held |
| Vic.InstallSteps | lpc2478_irq_template/irq.c:59-71 | the registers after each of the four writes of an install |
| Vic.RejectedInstall | lpc2478_irq_template/irq.c:59-63 | an interrupt number above the range disables the slot in its low byte if there is one, and changes nothing else |
| Vic.TraceExact | lpc2478_irq_template/irq.c:24-74 | after any sequence of calls whose negative numbers are harmless, a slot is enabled if and only if it was installed and neither reset nor disabled since, then holds its latest install, and the other registers are as the reset left them |
| Vic.NeverTorn | lpc2478_irq_template/irq.c:24-74 | after any number of writes of any sequence of calls whose negative numbers are tearless, every enabled slot holds the handler and priority of the latest install on it |
| Vic.TearlessIntact | lpc2478_irq_template/irq.c:59-71 | a negative number that selects no slot and misses VICIntEnable and both tables tears nothing at any of its writes; it may still disable slots |
| Vic.OthersTear | lpc2478_irq_template/irq.c:59-71 | for every other negative number there is a sequence of calls after which an install with it leaves an enabled slot without its latest install |
| Vic.HarmlessKeeps | lpc2478_irq_template/irq.c:59-71 | a negative number that selects no slot and misses all the registers changes nothing at any of its writes |
| Vic.OthersSpoil | lpc2478_irq_template/irq.c:59-71 | for every negative number that is not harmless there is a sequence of calls after which an install with it tears or loses an install or changes another register |
| Vic.InstallLost | lpc2478_irq_template/irq.c:66-69 | after an install on slot 0, number -123 with priority 1 leaves slot 0 disabled |
| Vic.NegativeExamples | lpc2478_irq_template/irq.c:66-69 | -60 writes the handler address to VICIntEnable, -123 the priority to VICIntEnClr, -125 to VICIntSelect, and -1 is harmless |
| Vic.Controller.InitVIC | lpc2478_irq_template/irq.c:24-43 | performs exactly the writes of a reset, in order |
| Vic.Controller.InstallIrq | lpc2478_irq_template/irq.c:54-74 | performs exactly the writes of an install, in order, for every number, and reports whether it was below the limit |
| CriticalSections.Cpu.EnableIRQ | lpc2478_irq_template/VIClowlevel.c:21-27 | clears the I bit and returns the old CPSR |
| CriticalSections.Cpu.DisableIRQ | lpc2478_irq_template/VIClowlevel.c:29-35 | sets the I bit and returns the old CPSR |
| CriticalSections.Cpu.RestoreIRQ | lpc2478_irq_template/VIClowlevel.c:37-43 | takes the I bit from the saved value and everything else from the current one |
| CriticalSections.Cpu.Execute | lpc2478_irq_template/VIClowlevel.c:21-43 | a program of nested sections runs through exactly the specified CPSR values |
| CriticalSections.EnableDisable | lpc2478_irq_template/VIClowlevel.c:21-35 | enabling unmasks, disabling masks, from any CPSR |
| CriticalSections.SectionRestoresMask | lpc2478_irq_template/VIClowlevel.c:29-43 | a section leaves the I bit as it found it whatever its body did |
| CriticalSections.RestoredMask | lpc2478_irq_template/VIClowlevel.c:37-43 | restoring takes bit 0x80 from the saved value and all others from the present one |
| CriticalSections.SectionsAreTransparent | lpc2478_irq_template/VIClowlevel.c:29-43 | sections nested to any depth leave the whole CPSR as it was |
| CriticalSections.SectionsStayMasked | lpc2478_irq_template/VIClowlevel.c:29-43 | while masked, nested sections never unmask at any point |
| CriticalSections.SectionIsMaskedInside | lpc2478_irq_template/VIClowlevel.c:29-43 | from its disable to its restore such a section is masked, even when entered unmasked |
| CriticalSections.ExecKeepsRest | lpc2478_irq_template/VIClowlevel.c:21-43 | no combination of the three functions ends with another CPSR bit changed |
| CriticalSections.StatesKeepRest | lpc2478_irq_template/VIClowlevel.c:21-43 | nor has any CPSR value on the way another bit changed |

## Left out

- `rprintfFloat`: its behaviour rests on the rounding of IEEE doubles.
- `rprintfStrLen`, `rprintfCRLF`, `enableTimer` and `disableTimer` are not modelled.
- The commented-out `sprintf` at the end of `rprintf.c`.
- NumberPrinters.RprintfNum: base 0, which divides by zero, and digit counts outside 1 (2 if signed) to 31, for which the source leaves its buffer.
- NumberPrinters.FillDigits: the same digit counts and base.
- SoftTimers.Timers.Timer: negative timer numbers and 10, which the source's guard admits although they are outside its table.
- `touch_xyz`: the SPI reads and the pressure formula; the raw coordinates and the pressure are parameters.
- Copies of the modelled files in other directories, LED, LCD, SPI, RTC and CAN drivers, key scanning, PLL set-up and the vendored U-Boot.
