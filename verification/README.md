# test_flasher: the HEX reader and the chunked upload, in Dafny

The flasher page fetches an Intel HEX firmware file, turns it into a byte
image with `parseIntelHex`, and writes that image to a serial port in
64-byte chunks with `flashFirmware`. This project models those two pieces
of logic from `script.js` and proves what they do.

- `seqs.dfy` (`Seqs`): flattening helpers shared by both halves.
  - `Flatten` concatenates a list of lists.
  - `FlatMap` concatenates the parts of a list, the way an accumulator does.
  - `Map`.
- `hex.dfy` (`Hex`): hex digits and their values, plus the two- and
  four-digit spellings of a byte and of an address.
- `js_text.dfy` (`JsText`): the JavaScript built-ins the reader relies on,
  written out as total functions.
  - `String.prototype.trim`, `split` with a one-character separator, and `substr`.
  - `parseInt(_, 16)`, following section 19.2.5 of ECMA-262. It skips leading
    whitespace, takes a sign and a `0x` prefix, reads the longest run of hex
    digits, and yields `NaN` when there is none. The value is kept as an
    exact integer rather than rounded to a double (see "## Left out").
  - The ToUint8 conversion (section 7.1.11 of ECMA-262) that `new Uint8Array(…)`
    applies to each element.
- `intel_hex.dfy` (`IntelHex`): `parseIntelHex` itself.
  - Each line pushes data fields `0 … byteCount-1` when it starts with `:` and
    its type field reads as 0.
  - The pushed values are concatenated in line order and stored as bytes.
  - As a partner for the reader, there is an encoder for records in the
    `:LLAAAATT<data>CC` layout of the Intel Hexadecimal Object File Format
    Specification (Rev. A). It writes files with LF or CR LF line ends. A file
    it writes reads back as its Data Records' payloads.
- `flasher.dfy` (`Flasher`): the loop of `flashFirmware`.
  - Each `writer.write(chunk)` appends `chunk` to a trace.
  - The trace is proved equal to an independent reference cut, `Chunks`.

The reader never fails. Some fields read as `NaN` and are stored as 0:
those with no hex digit where `parseInt` looks for one (after leading
whitespace, a sign and a `0x`), and those that start at or past the end of
a short line. A field cut to one character by the end of the line reads as
that single digit. A negative field such as `-1` is stored modulo 256. The
model follows this code behaviour.

## Model

| member | source | states |
|---|---|---|
| JsText.Trim | script.js:78 | `hexString.trim()` is the contiguous part of the text left after removing the whitespace before and after it: everything cut from the front and from the back is whitespace, and the result neither starts nor ends with whitespace |
| JsText.TrimOfTrimmed | script.js:78 | a text that starts and ends with non-whitespace is left unchanged by `trim()` |
| JsText.TrimWithWhitespaceTail | script.js:78 | trailing whitespace (such as the final `\n` or `\r\n`) after a trimmed text is removed by `trim()` |
| JsText.TrimEndBehind | script.js:78 | trimming the end of `p + rest` trims only `rest` when `rest` holds something other than whitespace |
| JsText.Split | script.js:78 | `split('\n')` gives at least one piece, no piece contains `\n`, and joining the pieces with `\n` gives the text back |
| JsText.SplitJoin | script.js:78 | splitting undoes joining for pieces free of the separator |
| JsText.SplitFirst | script.js:78 | a first line without `\n` comes off the front of the split unchanged |
| JsText.Substr | script.js:83-84 | `line.substr(start, 2)` has length `min(2, what is left after start)`; it is the characters from `start` on, and empty past the end of the line |
| JsText.ParseIntHexOfDigits | script.js:83-84 | `parseInt(s, 16)` on a non-empty string of hex digits is the digits' value as an exact integer; for the two-character fields the reader parses, this is JavaScript's result |
| JsText.ParseIntHexOfTwo | script.js:88-89 | a two-character field parses to `NaN` or to a number from -15 to 255; the empty field past the end of a line is `NaN` |
| JsText.ParseIntHexPair | script.js:88-89 | reading back the two-digit spelling of a byte gives the byte |
| JsText.ToUint8 | script.js:95 | storing into a `Uint8Array` maps `NaN` to 0, keeps values 0-255, and otherwise keeps the value modulo 256 |
| JsText.ToUint8Array | script.js:95 | `new Uint8Array(values)` has one byte per value, element by element ToUint8 of the value |
| JsText.ToUint8ArrayAppend | script.js:95 | converting a concatenation is concatenating the conversions |
| IntelHex.DataValues | script.js:87-91 | the loop pushes exactly `n` values, value `i` being data field `i` (`substr(9 + 2i, 2)` parsed) |
| IntelHex.LineValues | script.js:82-92 | a line pushes exactly as many values as its byte count declares when it is a data record, and none otherwise |
| IntelHex.ParseIntelHex | script.js:73-96 | the image is as long as the sum of the counts the data records of the trimmed, split text declare |
| IntelHex.CollectAppend | script.js:79-93 | the accumulator is only appended to: the values of `a + b` are those of `a`, then those of `b` |
| IntelHex.CollectLength | script.js:79-93 | the accumulator ends as long as the lines' declared counts add up to |
| IntelHex.ParseLinesAppend | script.js:79-95 | reading distributes over lines: the bytes of `a + b` are the bytes of `a` followed by the bytes of `b` |
| IntelHex.ParseFirstLine | script.js:78-95 | the image of `first + "\n" + rest` is the bytes of the first line followed by the image of the remaining lines, `rest` having its trailing whitespace (such as a final `\n` or `\r\n`) trimmed off |
| IntelHex.DropLine | script.js:81-93 | a line that pushes nothing can be removed without changing the image |
| IntelHex.UnmarkedLineIgnored | script.js:82 | a line whose first character is not `:`, the empty line included, contributes no bytes |
| IntelHex.NonDataRecordIgnored | script.js:84-92 | a record whose type field does not read as 0 contributes no bytes; this covers End Of File, every other type, and a type field with no hex digit, which reads as `NaN` |
| IntelHex.OutputLength | script.js:83-91 | the image length is the sum of the declared counts; when every data record's byte-count field is two hex digits, it is the sum of those fields over the data records, whatever the other lines hold |
| IntelHex.DataByte | script.js:87-90 | byte `i` of a data record is the value of the hex pair at characters `9+2i` and `10+2i` |
| IntelHex.LineByte | script.js:87-95 | byte `i` of a line is data field `i` after the `Uint8Array` conversion |
| IntelHex.TruncatedDataReadsZero | script.js:87-95 | a data byte whose field starts at or past the end of the line still appears in the image, as 0 |
| IntelHex.TruncatedDataOneDigit | script.js:87-95 | a data byte whose field has only one character left before the end of the line, a hex digit, appears in the image as that digit's value |
| IntelHex.LineAddressNotRead | script.js:82-91 | two lines that differ only in characters 3-6 (the address) push the same values |
| IntelHex.AddressNotRead | script.js:78-93 | rewriting the address field of any line leaves the image unchanged |
| IntelHex.TextAfterDataNotRead | script.js:83-91 | text after the data bytes (the checksum, a `\r`, anything else) does not change what a line pushes |
| IntelHex.RecordHeaderFields | script.js:82-84 | a written record line starts with `:`, and its count and type fields read as the record's own values |
| IntelHex.RecordRoundTrip | script.js:82-92 | a written record reads back as its data when it is a Data Record, and as nothing otherwise; address and checksum play no part |
| IntelHex.LineEndValues | script.js:83-91 | a written record followed by any text (such as the `\r` of CR LF) still reads back as its payload |
| IntelHex.ParseEncodedLines | script.js:79-95 | lines each reading as one record's payload read together as the records' payloads, in order |
| IntelHex.SplitEncodedFile | script.js:78 | trimming and splitting a written file gives back its record lines; the `\r` of the last CR LF is trimmed away and the others stay |
| IntelHex.FileRoundTrip | script.js:73-96 | a file written with LF or CR LF line ends parses to the concatenated payloads of its Data Records, in file order |
| IntelHex.ExampleFile | script.js:73-96 | the file `:0300300002337A1E` / `:00000001FF` parses to the bytes 02 33 7A |
| Flasher.Slice | script.js:111 | `firmwareData.slice(i, i + 64)` has the clamped length, and its element `k` is image byte `i + k` |
| Flasher.FlashFirmware | script.js:109-114 | the write trace equals the reference cut. It concatenates back to the image and has `ceil(length / 64)` writes, none for an empty image. Every write is 1 to 64 bytes, all but the last exactly 64. Write `k` is the slice at offset `64k` |
| Flasher.ChunkTrace | script.js:109-114 | what a trace equal to the reference cut with 64-byte chunks satisfies: the properties listed for `FlashFirmware` |
| Flasher.ChunksFrom | script.js:110-112 | one loop step: the cut from offset `i` is the slice at `i`, then the cut from the next offset |
| Flasher.ChunksFlatten | script.js:110-112 | the chunks concatenated are the image |
| Flasher.ChunksCount | script.js:110 | there are `ceil(length / size)` chunks |
| Flasher.ChunksSizes | script.js:109-111 | no chunk is empty or longer than the chunk size, and all but the last are exactly that size |
| Flasher.ChunkAt | script.js:110-111 | chunk `k` is the slice starting at `k * size`, so chunks follow one another in increasing offset |
| Flasher.FlashHexText | script.js:50-53 | parsing the text and flashing the image puts exactly the parsed bytes on the port, in order, in chunks of 1 to 64 bytes |

## Left out

- The page wiring is not modelled: button listeners, status text, console logging, and the global `port`/`writer`/`reader`/`isConnected` state (script.js:1-71, apart from lines 50-53). It has no behaviour to state beyond the call sequence that `Flasher.FlashHexText` models.
- Opening the Web Serial port at 115200 baud, `getWriter`/`getReader` and `port.close()` are foreign browser APIs. A write is modelled as appending to a trace, so a write that fails part-way is not modelled.
- `fetch('bootloadertest.hex')` is network I/O. The reader takes the fetched text as its argument.
- `delay(50)` between chunks only affects timing, not what is written. It is not modelled.
- `await` and the asynchronous ordering of writes are not modelled. The trace records the writes in the order the loop issues them.
- Strings are modelled as sequences of Unicode scalar values, while JavaScript indexes UTF-16 code units. The two differ only for characters outside the Basic Multilingual Plane. Such characters would shift `substr` offsets, and a HEX file contains none.
- `parseInt` results are integers or `NaN`. The distinction between `-0` and `+0` is dropped. This is harmless: `-0 === 0` holds and a `Uint8Array` stores both as 0.
- `JsText.ParseIntHex` has no contract of its own. Its behaviour is stated by `ParseIntHexOfDigits`, `ParseIntHexOfTwo` and `ParseIntHexPair`. A partial parse such as `"1g"` giving 1 is computed by the function, but no lemma states it.
- The reader has no error path. A field with no hex digit where `parseInt` looks for one (after leading whitespace, a sign and a `0x`), or one that starts at or past the end of a short line, reads as `NaN` and is stored as 0 (see `IntelHex.TruncatedDataReadsZero`). A field cut to one hex digit reads as that digit (see `IntelHex.TruncatedDataOneDigit`). A negative field such as `-1` is stored modulo 256.
- `JsText.ParseIntHex` returns the exact integer. JavaScript rounds the result to a double above 2^53 and gives `Infinity` for very long digit runs, which a `Uint8Array` stores as 0. The reader only parses two-character fields, with values from -15 to 255, where the two agree.
- `JsText.ParseIntHexOfDigits`: its exact-integer value is JavaScript's only for values up to 2^53, for the reason in the line above.
- Checksums are neither computed nor checked by the code, so none are modelled. The encoder takes the checksum byte as given.
