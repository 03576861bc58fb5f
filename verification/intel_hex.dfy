/**
 * The flasher's Intel HEX reader (`parseIntelHex` in script.js).
 *
 * A record line has the layout `:LLAAAATT<data>CC` of the Intel Hexadecimal
 * Object File Format Specification (Rev. A): byte count `LL`, load address
 * `AAAA`, record type `TT` (00 Data Record, 01 End Of File), `LL` data bytes
 * and a checksum `CC`, every byte written as two hex digits. The reader looks
 * only at the byte count (characters 1-2), the type (characters 7-8) and, for
 * a data record, the data bytes from character 9 on; it never reads the
 * address or the checksum, and it concatenates the payloads of all data
 * records in the order of the lines.
 *
 * Nothing is rejected: fields are read with `parseInt(_, 16)` and stored in a
 * `Uint8Array`. A field with no hex digit where `parseInt` looks for one
 * (after leading whitespace, a sign and a `0x`), or one that starts at or
 * past the end of a short line, reads as `NaN` and is stored as 0; a field
 * cut to one character reads as that digit alone; a negative field such as
 * `-1` is stored modulo 256.
 */
module IntelHex {
  import opened Hex
  import opened JsText
  import opened Seqs

  /* ----- what the reader takes from one line ----- */

  /** `line[0] === ':'`; an empty line has no first character. */
  predicate StartsRecord(line: string) {
    |line| > 0 && line[0] == ':'
  }

  /** `parseInt(line.substr(1, 2), 16)` */
  function ByteCountField(line: string): JsNumber {
    ParseIntHex(Substr(line, 1, 2))
  }

  /** `parseInt(line.substr(7, 2), 16)` */
  function RecordTypeField(line: string): JsNumber {
    ParseIntHex(Substr(line, 7, 2))
  }

  /** `parseInt(line.substr(9 + i * 2, 2), 16)`, the `i`-th data byte. */
  function DataField(line: string, i: nat): JsNumber {
    ParseIntHex(Substr(line, 9 + i * 2, 2))
  }

  /** How often `for (let i = 0; i < bound; i++)` runs: `i < NaN` is false. */
  function Iterations(bound: JsNumber): nat {
    match bound
    case NaN => 0
    case Int(v) => if v > 0 then v else 0
  }

  /** The lines whose data the reader copies: `recordType === 0`. */
  predicate IsDataRecord(line: string) {
    StartsRecord(line) && RecordTypeField(line) == Int(0)
  }

  /** The number of values a line pushes onto `binaryData`. */
  function DeclaredLength(line: string): nat {
    if IsDataRecord(line) then Iterations(ByteCountField(line)) else 0
  }

  /** The values the loop `for (let i = 0; i < n; i++)` pushes: data fields
      `0` to `n - 1`, in order. */
  function DataValues(line: string, n: nat): (r: seq<JsNumber>)
    ensures |r| == n
    ensures forall i :: 0 <= i < n ==> r[i] == DataField(line, i)
  {
    if n == 0 then [] else DataValues(line, n - 1) + [DataField(line, n - 1)]
  }

  /** The values one line pushes onto `binaryData`. */
  function LineValues(line: string): (r: seq<JsNumber>)
    ensures |r| == DeclaredLength(line)
  {
    if IsDataRecord(line) then DataValues(line, Iterations(ByteCountField(line))) else []
  }

  /* ----- the reader ----- */

  /** `binaryData` once `lines.forEach` has visited every line: each line's
      values are appended to what the lines before it produced. */
  function Collect(lines: seq<string>): seq<JsNumber> {
    FlatMap(LineValues, lines)
  }

  /** The bytes a sequence of lines yields: `new Uint8Array(binaryData)`. */
  function ParseLines(lines: seq<string>): seq<byte> {
    ToUint8Array(Collect(lines))
  }

  /** Sum of `DeclaredLength` over the lines. */
  function TotalDeclared(lines: seq<string>): nat {
    if |lines| == 0 then 0 else DeclaredLength(lines[0]) + TotalDeclared(lines[1..])
  }

  /** `parseIntelHex(hexString)`: trims the text, splits it at `'\n'` and
      reads every line. The image is exactly as long as the byte counts the
      data records declare. */
  function ParseIntelHex(text: string): (r: seq<byte>)
    ensures |r| == TotalDeclared(Split(Trim(text), '\n'))
  {
    var lines := Split(Trim(text), '\n');
    CollectLength(lines);
    ParseLines(lines)
  }

  /* ----- the reader, line by line ----- */

  /** The accumulator is only ever appended to, so reading `a + b` is reading
      `a` and then `b`. */
  lemma CollectAppend(a: seq<string>, b: seq<string>)
    ensures Collect(a + b) == Collect(a) + Collect(b)
  {
    FlatMapAppend(LineValues, a, b);
  }

  lemma CollectSingle(line: string)
    ensures Collect([line]) == LineValues(line)
  {
    FlatMapSingle(LineValues, line);
  }

  lemma {:induction false} CollectLength(lines: seq<string>)
    ensures |Collect(lines)| == TotalDeclared(lines)
    decreases |lines|
  {
    if |lines| > 0 {
      assert lines == [lines[0]] + lines[1..];
      CollectAppend([lines[0]], lines[1..]);
      CollectSingle(lines[0]);
      CollectLength(lines[1..]);
    }
  }

  /** Reading distributes over lines: the bytes of `a + b` are the bytes of
      `a` followed by the bytes of `b`. */
  lemma ParseLinesAppend(a: seq<string>, b: seq<string>)
    ensures ParseLines(a + b) == ParseLines(a) + ParseLines(b)
  {
    CollectAppend(a, b);
    ToUint8ArrayAppend(Collect(a), Collect(b));
  }

  /** The same at the level of the text: a first line that is not blank is
      read first, then the rest of the text with its trailing whitespace (a
      final `\n` or `\r\n`, say) trimmed off. */
  lemma ParseFirstLine(first: string, rest: string)
    requires |first| > 0 && !IsWhitespace(first[0]) && '\n' !in first
    requires TrimEnd(rest) != []
    ensures ParseIntelHex(first + "\n" + rest)
         == ParseLines([first]) + ParseLines(Split(TrimEnd(rest), '\n'))
  {
    var text := first + "\n" + rest;
    assert Trim(text) == first + "\n" + TrimEnd(rest) by {
      assert TrimStart(text) == text;
      TrimEndBehind(first + "\n", rest);
    }
    assert first + "\n" + TrimEnd(rest) == first + ['\n'] + TrimEnd(rest);
    SplitFirst(first, TrimEnd(rest), '\n');
    ParseLinesAppend([first], Split(TrimEnd(rest), '\n'));
  }

  /** One line left out of the reading. */
  lemma DropLine(lines: seq<string>, k: nat)
    requires k < |lines| && DeclaredLength(lines[k]) == 0
    ensures ParseLines(lines) == ParseLines(lines[..k] + lines[k + 1..])
  {
    FlatMapDrop(LineValues, lines, k);
  }

  /** A line that does not start with `:` contributes nothing. */
  lemma UnmarkedLineIgnored(lines: seq<string>, k: nat)
    requires k < |lines| && !StartsRecord(lines[k])
    ensures ParseLines(lines) == ParseLines(lines[..k] + lines[k + 1..])
  {
    DropLine(lines, k);
  }

  /** A record whose type field does not read as 0 (End Of File and every
      other type, or a type field with no hex digit) contributes nothing. */
  lemma NonDataRecordIgnored(lines: seq<string>, k: nat)
    requires k < |lines| && StartsRecord(lines[k]) && RecordTypeField(lines[k]) != Int(0)
    ensures ParseLines(lines) == ParseLines(lines[..k] + lines[k + 1..])
  {
    DropLine(lines, k);
  }

  /* ----- lengths and data bytes ----- */

  /** The byte-count field spelled with two hex digits. */
  predicate HasByteCount(line: string) {
    |line| >= 3 && AllHexDigits(line[1..3])
  }

  /** Sum of the byte-count fields of the data records. */
  function SumOfByteCounts(lines: seq<string>): nat
    requires forall k :: 0 <= k < |lines| ==> IsDataRecord(lines[k]) ==> HasByteCount(lines[k])
  {
    if |lines| == 0 then 0
    else
      (if IsDataRecord(lines[0])
       then assert HasByteCount(lines[0]); HexValue(lines[0][1..3])
       else 0)
      + SumOfByteCounts(lines[1..])
  }

  /** The data-record byte counts decide the length of the image: in general
      as `parseInt` reads them, and, when each data record spells its count
      with two hex digits, as their sum, whatever the rest of the lines
      holds. */
  lemma {:induction false} OutputLength(lines: seq<string>)
    ensures |ParseLines(lines)| == TotalDeclared(lines)
    ensures (forall k :: 0 <= k < |lines| ==> IsDataRecord(lines[k]) ==> HasByteCount(lines[k])) ==>
              |ParseLines(lines)| == SumOfByteCounts(lines)
    decreases |lines|
  {
    CollectLength(lines);
    if |lines| > 0 && forall k :: 0 <= k < |lines| ==> IsDataRecord(lines[k]) ==> HasByteCount(lines[k]) {
      var line := lines[0];
      assert forall k :: 0 <= k < |lines[1..]| ==> lines[1..][k] == lines[k + 1];
      OutputLength(lines[1..]);
      CollectLength(lines[1..]);
      if IsDataRecord(line) {
        assert Substr(line, 1, 2) == line[1..3];
        ParseIntHexOfDigits(line[1..3]);
      }
    }
  }

  /** Data byte `i` of a record is the hex pair at characters `9 + 2i` and
      `10 + 2i`. */
  lemma DataByte(line: string, i: nat)
    requires i < DeclaredLength(line)
    requires 11 + 2 * i <= |line| && AllHexDigits(line[9 + 2 * i..11 + 2 * i])
    ensures |ParseLines([line])| == DeclaredLength(line)
    ensures ParseLines([line])[i] == HexValue(line[9 + 2 * i..11 + 2 * i])
  {
    LineByte(line, i);
    DataFieldOfDigits(line, i);
  }

  /** Byte `i` of a line is data field `i`, stored in a `Uint8Array`. */
  lemma LineByte(line: string, i: nat)
    requires i < DeclaredLength(line)
    ensures |ParseLines([line])| == DeclaredLength(line)
    ensures ParseLines([line])[i] == ToUint8(DataField(line, i))
  {
    CollectSingle(line);
  }

  lemma DataFieldOfDigits(line: string, i: nat)
    requires 11 + 2 * i <= |line| && AllHexDigits(line[9 + 2 * i..11 + 2 * i])
    ensures DataField(line, i) == Int(HexValue(line[9 + 2 * i..11 + 2 * i]))
    ensures HexValue(line[9 + 2 * i..11 + 2 * i]) < 256
  {
    assert Substr(line, 9 + i * 2, 2) == line[9 + 2 * i..11 + 2 * i];
    ParseIntHexOfDigits(line[9 + 2 * i..11 + 2 * i]);
  }

  /** A record shorter than its byte count says still yields that many bytes:
      the ones whose field starts at or past the end of the line read as
      `NaN` and are stored as 0. */
  lemma TruncatedDataReadsZero(line: string, i: nat)
    requires i < DeclaredLength(line) && 9 + 2 * i >= |line|
    ensures |ParseLines([line])| == DeclaredLength(line)
    ensures ParseLines([line])[i] == 0
  {
    CollectSingle(line);
    assert Substr(line, 9 + i * 2, 2) == [];
    ParseIntHexOfTwo([]);
  }

  /** A record one character short of its last full field: that field is the
      single digit left, which `parseInt` reads as that digit's value. */
  lemma TruncatedDataOneDigit(line: string, i: nat)
    requires i < DeclaredLength(line) && |line| == 10 + 2 * i
    requires IsHexDigit(line[9 + 2 * i])
    ensures |ParseLines([line])| == DeclaredLength(line)
    ensures ParseLines([line])[i] == DigitValue(line[9 + 2 * i])
  {
    LineByte(line, i);
    DataFieldOfOneDigit(line, i);
  }

  lemma DataFieldOfOneDigit(line: string, i: nat)
    requires |line| == 10 + 2 * i && IsHexDigit(line[9 + 2 * i])
    ensures DataField(line, i) == Int(DigitValue(line[9 + 2 * i]))
  {
    var c := line[9 + 2 * i];
    assert Substr(line, 9 + i * 2, 2) == [c];
    ParseIntHexOfDigits([c]);
    assert [c][..0] == [];
  }

  /* ----- fields that are never read ----- */

  lemma SubstrAgree(a: string, b: string, start: nat, length: nat)
    requires |a| == |b|
    requires forall k :: start <= k < start + length && k < |a| ==> a[k] == b[k]
    ensures Substr(a, start, length) == Substr(b, start, length)
  {
  }

  /** Two lines that differ only in the address field (characters 3-6) read
      the same. */
  lemma LineAddressNotRead(a: string, b: string)
    requires |a| == |b|
    requires forall k :: 0 <= k < |a| && (k < 3 || 7 <= k) ==> a[k] == b[k]
    ensures LineValues(a) == LineValues(b)
  {
    SubstrAgree(a, b, 1, 2);
    SubstrAgree(a, b, 7, 2);
    forall i: nat
      ensures DataField(a, i) == DataField(b, i)
    {
      SubstrAgree(a, b, 9 + i * 2, 2);
    }
  }

  /** Rewriting the address field of any line leaves the image unchanged. */
  lemma AddressNotRead(lines: seq<string>, k: nat, line: string)
    requires k < |lines| && |line| == |lines[k]|
    requires forall j :: 0 <= j < |line| && (j < 3 || 7 <= j) ==> line[j] == lines[k][j]
    ensures ParseLines(lines[k := line]) == ParseLines(lines)
  {
    LineAddressNotRead(line, lines[k]);
    FlatMapUpdate(LineValues, lines, k, line);
  }

  /** Whatever follows the data bytes of a line (the checksum, a `'\r'` left
      by a CR LF line end, anything else) is never read. */
  lemma TextAfterDataNotRead(line: string, extra: string)
    requires |line| >= 9 + 2 * DeclaredLength(line)
    ensures LineValues(line + extra) == LineValues(line)
  {
    var long := line + extra;
    SubstrOfPrefix(line, extra, 1, 2);
    SubstrOfPrefix(line, extra, 7, 2);
    assert StartsRecord(long) == StartsRecord(line);
    forall i: nat | i < DeclaredLength(line)
      ensures DataField(long, i) == DataField(line, i)
    {
      SubstrOfPrefix(line, extra, 9 + i * 2, 2);
    }
  }

  lemma SubstrOfPrefix(line: string, extra: string, start: nat, length: nat)
    requires start + length <= |line|
    ensures Substr(line + extra, start, length) == Substr(line, start, length)
  {
    assert (line + extra)[start..start + length] == line[start..start + length];
  }

  /* ----- records written out, and read back ----- */

  const DataRecordType: byte := 0x00
  const EndOfFileType: byte := 0x01

  /** A 16-bit load offset. */
  type Address = a: nat | a < 0x1_0000

  /** The data of one record: its length must fit the one-byte count field. */
  type RecordData = d: seq<byte> | |d| < 256

  /** One record of a HEX file; the byte count is the length of `data`. */
  datatype Record = Record(address: Address, recordType: byte, data: RecordData, checksum: byte)

  /** The data bytes spelled two hex digits each. */
  function HexBytes(data: seq<byte>): (s: string)
    ensures |s| == 2 * |data|
  {
    if |data| == 0 then [] else HexPair(data[0]) + HexBytes(data[1..])
  }

  /** Byte `i` of the data is spelled at characters `2i` and `2i + 1`. */
  lemma {:induction false} HexBytesPairs(data: seq<byte>)
    ensures AllHexDigits(HexBytes(data))
    ensures forall i :: 0 <= i < |data| ==> HexBytes(data)[2 * i..2 * i + 2] == HexPair(data[i])
  {
    if |data| > 0 {
      HexBytesPairs(data[1..]);
      var s, t := HexBytes(data), HexBytes(data[1..]);
      assert s == HexPair(data[0]) + t;
      AllHexDigitsAppend(HexPair(data[0]), t);
      forall i | 1 <= i < |data|
        ensures s[2 * i..2 * i + 2] == HexPair(data[i])
      {
        assert s[2 * i..2 * i + 2] == t[2 * (i - 1)..2 * (i - 1) + 2];
      }
    }
  }

  /** A record as a line `:LLAAAATT<data>CC`. */
  function EncodeRecord(r: Record): (line: string)
    ensures |line| == 11 + 2 * |r.data|
  {
    ":" + HexPair(|r.data|) + HexQuad(r.address) + HexPair(r.recordType)
      + HexBytes(r.data) + HexPair(r.checksum)
  }

  /** Where the fields of a record line sit: the byte count at characters
      1-2, the address at 3-6, the type at 7-8, the data from 9 on and the
      checksum last. */
  lemma RecordLayout(r: Record)
    ensures EncodeRecord(r)[0] == ':'
    ensures EncodeRecord(r)[1..3] == HexPair(|r.data|)
    ensures EncodeRecord(r)[3..7] == HexQuad(r.address)
    ensures EncodeRecord(r)[7..9] == HexPair(r.recordType)
    ensures EncodeRecord(r)[9..9 + 2 * |r.data|] == HexBytes(r.data)
    ensures EncodeRecord(r)[9 + 2 * |r.data|..] == HexPair(r.checksum)
  {
  }

  /** Past its `:`, a record line is hex digits only. */
  lemma RecordDigits(r: Record)
    ensures AllHexDigits(EncodeRecord(r)[1..])
  {
    var count, address, kind := HexPair(|r.data|), HexQuad(r.address), HexPair(r.recordType);
    var data, sum := HexBytes(r.data), HexPair(r.checksum);
    assert EncodeRecord(r)[1..] == count + address + kind + data + sum;
    HexBytesPairs(r.data);
    AllHexDigitsAppend(count, address);
    AllHexDigitsAppend(count + address, kind);
    AllHexDigitsAppend(count + address + kind, data);
    AllHexDigitsAppend(count + address + kind + data, sum);
  }

  /** No record line contains a line break, and each ends in a hex digit. */
  lemma EncodedRecordIsOneLine(r: Record)
    ensures EncodeRecord(r)[0] == ':'
    ensures '\n' !in EncodeRecord(r)
    ensures IsHexDigit(EncodeRecord(r)[|EncodeRecord(r)| - 1])
  {
    var line := EncodeRecord(r);
    RecordLayout(r);
    RecordDigits(r);
    assert forall j :: 1 <= j < |line| ==> line[j] == line[1..][j - 1];
    assert !IsHexDigit('\n') && !IsHexDigit(':');
  }

  /** The sequence of numbers is the sequence of bytes, read as numbers. */
  lemma ToUint8ArrayOfBytes(values: seq<JsNumber>, bytes: seq<byte>)
    requires |values| == |bytes|
    requires forall k :: 0 <= k < |bytes| ==> values[k] == Int(bytes[k])
    ensures ToUint8Array(values) == bytes
  {
  }

  /** The byte count and type fields of a record line read as the record's
      own values. */
  lemma RecordHeaderFields(r: Record)
    ensures StartsRecord(EncodeRecord(r))
    ensures ByteCountField(EncodeRecord(r)) == Int(|r.data|)
    ensures RecordTypeField(EncodeRecord(r)) == Int(r.recordType)
  {
    var line := EncodeRecord(r);
    RecordLayout(r);
    assert Substr(line, 1, 2) == line[1..3];
    ParseIntHexPair(|r.data|);
    assert Substr(line, 7, 2) == line[7..9];
    ParseIntHexPair(r.recordType);
  }

  lemma DataFieldOfEncoded(r: Record, i: nat)
    requires i < |r.data|
    ensures DataField(EncodeRecord(r), i) == Int(r.data[i])
  {
    var line := EncodeRecord(r);
    var hex := HexBytes(r.data);
    RecordLayout(r);
    HexBytesPairs(r.data);
    assert Substr(line, 9 + i * 2, 2) == line[9 + 2 * i..11 + 2 * i];
    assert line[9 + 2 * i..11 + 2 * i] == hex[2 * i..2 * i + 2];
    ParseIntHexPair(r.data[i]);
  }

  /** A Data Record line is read through its data loop. */
  lemma DataRecordLoop(r: Record)
    requires r.recordType == DataRecordType
    ensures LineValues(EncodeRecord(r)) == DataValues(EncodeRecord(r), |r.data|)
  {
    RecordHeaderFields(r);
  }

  /** The data loop over a record line reads the record's data bytes. */
  lemma DataLoopOfEncoded(r: Record)
    ensures forall i :: 0 <= i < |r.data| ==> DataValues(EncodeRecord(r), |r.data|)[i] == Int(r.data[i])
  {
    forall i | 0 <= i < |r.data|
      ensures DataField(EncodeRecord(r), i) == Int(r.data[i])
    {
      DataFieldOfEncoded(r, i);
    }
  }

  /** What a record contributes to the image: its data when it is a Data
      Record, nothing otherwise. */
  function Payload(r: Record): seq<byte> {
    if r.recordType == DataRecordType then r.data else []
  }

  /** Reading the line of a record gives back its data when it is a Data
      Record and nothing otherwise; its address and checksum play no part. */
  lemma RecordRoundTrip(r: Record)
    ensures ParseLines([EncodeRecord(r)]) == Payload(r)
  {
    CollectSingle(EncodeRecord(r));
    if r.recordType == DataRecordType {
      DataRecordLoop(r);
      DataLoopOfEncoded(r);
      ToUint8ArrayOfBytes(DataValues(EncodeRecord(r), |r.data|), r.data);
    } else {
      RecordHeaderFields(r);
    }
  }

  /** The data a sequence of records carries, Data Records only, in order. */
  function Payloads(records: seq<Record>): seq<byte> {
    if |records| == 0 then [] else Payload(records[0]) + Payloads(records[1..])
  }

  /** What ends a line before its `'\n'`: `'\r'` in a CR LF file. */
  function CarriageReturn(crlf: bool): string {
    if crlf then "\r" else ""
  }

  /** A record's line as written, before its `'\n'`. */
  function WrittenLine(r: Record, crlf: bool): string {
    EncodeRecord(r) + CarriageReturn(crlf)
  }

  /** The line of each record, followed by `'\r'` when lines end in CR LF. */
  function EncodeLines(records: seq<Record>, crlf: bool): (lines: seq<string>)
    ensures |lines| == |records|
  {
    Map(r => WrittenLine(r, crlf), records)
  }

  /** Line `k` is the line of record `k`. */
  lemma EncodeLinesAt(records: seq<Record>, crlf: bool, k: nat)
    requires k < |records|
    ensures EncodeLines(records, crlf)[k] == WrittenLine(records[k], crlf)
  {
    MapAt(r => WrittenLine(r, crlf), records, k);
  }

  /** Every line followed by `'\n'`. */
  function Terminate(lines: seq<string>): string {
    if |lines| == 0 then [] else lines[0] + "\n" + Terminate(lines[1..])
  }

  /** A HEX file: one record per line, every line ended by LF or CR LF. */
  function EncodeFile(records: seq<Record>, crlf: bool): string
  {
    Terminate(EncodeLines(records, crlf))
  }

  lemma {:induction false} TerminateIsJoin(lines: seq<string>)
    requires |lines| > 0
    ensures Terminate(lines) == Join(lines, '\n') + "\n"
    decreases |lines|
  {
    if |lines| > 1 {
      TerminateIsJoin(lines[1..]);
    }
  }

  /** Reading lines each of which reads as one record's payload gives the
      records' payloads, in order. */
  lemma {:induction false} ParseEncodedLines(records: seq<Record>, lines: seq<string>)
    requires |lines| == |records|
    requires forall k :: 0 <= k < |records| ==> ParseLines([lines[k]]) == Payload(records[k])
    ensures ParseLines(lines) == Payloads(records)
    decreases |records|
  {
    if |records| > 0 {
      var rest, restLines := records[1..], lines[1..];
      forall k | 0 <= k < |rest|
        ensures ParseLines([restLines[k]]) == Payload(rest[k])
      {
        assert restLines[k] == lines[k + 1] && rest[k] == records[k + 1];
      }
      ParseEncodedLines(rest, restLines);
      assert lines == [lines[0]] + restLines;
      ParseLinesAppend([lines[0]], restLines);
    }
  }

  /** The lines the reader sees in a file written by `EncodeFile`: the
      line end after the last record is trimmed away, `'\r'` included. */
  function ReadLines(records: seq<Record>, crlf: bool): (lines: seq<string>)
    requires |records| > 0
    ensures |lines| == |records|
  {
    EncodeLines(records[..|records| - 1], crlf) + [EncodeRecord(records[|records| - 1])]
  }

  /** A file is its lines as read, joined, followed by the last line end. */
  lemma EncodeFileShape(records: seq<Record>, crlf: bool)
    requires |records| > 0
    ensures EncodeFile(records, crlf)
      == Join(ReadLines(records, crlf), '\n') + (CarriageReturn(crlf) + "\n")
  {
    var n := |records|;
    assert records == records[..n - 1] + [records[n - 1]];
    EncodeLinesSnoc(records[..n - 1], records[n - 1], crlf);
    TerminateLast(EncodeLines(records[..n - 1], crlf), EncodeRecord(records[n - 1]), CarriageReturn(crlf));
  }

  /** Ending every line with `'\n'` is joining them with `'\n'`, the text
      before the last `'\n'` kept apart. */
  lemma TerminateLast(init: seq<string>, last: string, end: string)
    ensures Terminate(init + [last + end]) == Join(init + [last], '\n') + (end + "\n")
  {
    TerminateIsJoin(init + [last + end]);
    if |init| == 0 {
      assert init + [last + end] == [last + end];
      assert init + [last] == [last];
    } else {
      JoinSnoc(init, last + end, '\n');
      JoinSnoc(init, last, '\n');
    }
  }

  lemma EncodeLinesSnoc(init: seq<Record>, last: Record, crlf: bool)
    ensures EncodeLines(init + [last], crlf) == EncodeLines(init, crlf) + [WrittenLine(last, crlf)]
  {
    assert (init + [last])[..|init|] == init;
  }

  /** Line `k` as read: the record's line, with the `'\r'` of a CR LF end
      on every line but the last. */
  lemma ReadLinesAt(records: seq<Record>, crlf: bool, k: nat)
    requires k < |records|
    ensures ReadLines(records, crlf)[k]
      == EncodeRecord(records[k]) + CarriageReturn(crlf && k < |records| - 1)
  {
    var n := |records|;
    if k < n - 1 {
      EncodeLinesAt(records[..n - 1], crlf, k);
    }
  }

  /** No line as read holds a line break. */
  lemma ReadLinesSeparated(records: seq<Record>, crlf: bool)
    requires |records| > 0
    ensures Separated(ReadLines(records, crlf), '\n')
  {
    forall k | 0 <= k < |records|
      ensures '\n' !in ReadLines(records, crlf)[k]
    {
      ReadLineIsOneLine(records, crlf, k);
    }
  }

  lemma ReadLineIsOneLine(records: seq<Record>, crlf: bool, k: nat)
    requires k < |records|
    ensures '\n' !in ReadLines(records, crlf)[k]
  {
    ReadLinesAt(records, crlf, k);
    EncodedRecordIsOneLine(records[k]);
    NoBreakAppend(EncodeRecord(records[k]), CarriageReturn(crlf && k < |records| - 1));
  }

  lemma NoBreakAppend(x: string, y: string)
    requires '\n' !in x && '\n' !in y
    ensures '\n' !in x + y
  {
  }

  /** The lines as read, joined, start with `:` and end with a hex digit. */
  lemma ReadLinesEnds(records: seq<Record>, crlf: bool)
    requires |records| > 0
    ensures var text := Join(ReadLines(records, crlf), '\n');
      |text| > 0 && text[0] == ':' && IsHexDigit(text[|text| - 1])
  {
    var lines := ReadLines(records, crlf);
    var n := |records|;
    ReadLinesAt(records, crlf, 0);
    ReadLinesAt(records, crlf, n - 1);
    EncodedRecordIsOneLine(records[n - 1]);
    EncodedRecordIsOneLine(records[0]);
    JoinEnds(lines, '\n');
    FirstOfPrefix(Join(lines, '\n'), lines[0]);
    LastOfSuffix(Join(lines, '\n'), lines[n - 1]);
  }

  lemma FirstOfPrefix(text: string, first: string)
    requires 0 < |first| <= |text| && text[..|first|] == first
    ensures text[0] == first[0]
  {
    assert text[..|first|][0] == text[0];
  }

  lemma LastOfSuffix(text: string, last: string)
    requires 0 < |last| <= |text| && text[|text| - |last|..] == last
    ensures text[|text| - 1] == last[|last| - 1]
  {
    assert text[|text| - |last|..][|last| - 1] == text[|text| - 1];
  }

  /** Trimming a written file leaves its lines as read, joined. */
  lemma TrimEncodedFile(records: seq<Record>, crlf: bool)
    requires |records| > 0
    ensures Trim(EncodeFile(records, crlf)) == Join(ReadLines(records, crlf), '\n')
  {
    EncodeFileShape(records, crlf);
    ReadLinesEnds(records, crlf);
    LineEndIsWhitespace(crlf);
    TrimWithWhitespaceTail(Join(ReadLines(records, crlf), '\n'), CarriageReturn(crlf) + "\n");
  }

  lemma LineEndIsWhitespace(crlf: bool)
    ensures forall k :: 0 <= k < |CarriageReturn(crlf) + "\n"| ==> IsWhitespace((CarriageReturn(crlf) + "\n")[k])
  {
  }

  /** The reader splits a written file back into the lines as read. */
  lemma SplitEncodedFile(records: seq<Record>, crlf: bool)
    requires |records| > 0
    ensures Split(Trim(EncodeFile(records, crlf)), '\n') == ReadLines(records, crlf)
  {
    TrimEncodedFile(records, crlf);
    ReadLinesSeparated(records, crlf);
    SplitJoin(ReadLines(records, crlf), '\n');
  }

  /** Each line as read reads as its record's payload. */
  lemma ReadLinesValues(records: seq<Record>, crlf: bool)
    requires |records| > 0
    ensures forall k :: 0 <= k < |records| ==>
              ParseLines([ReadLines(records, crlf)[k]]) == Payload(records[k])
  {
    forall k | 0 <= k < |records|
      ensures ParseLines([ReadLines(records, crlf)[k]]) == Payload(records[k])
    {
      ReadLinesAt(records, crlf, k);
      LineEndValues(records[k], CarriageReturn(crlf && k < |records| - 1));
    }
  }

  /** A record line read with text after it still reads as the record's payload. */
  lemma LineEndValues(r: Record, extra: string)
    ensures ParseLines([EncodeRecord(r) + extra]) == Payload(r)
  {
    var line := EncodeRecord(r);
    RecordHeaderFields(r);
    TextAfterDataNotRead(line, extra);
    CollectSingle(line + extra);
    CollectSingle(line);
    RecordRoundTrip(r);
  }

  /** A file written with LF or CR LF line ends reads back as the
      concatenated payloads of its Data Records, in file order. */
  lemma FileRoundTrip(records: seq<Record>, crlf: bool)
    ensures ParseIntelHex(EncodeFile(records, crlf)) == Payloads(records)
  {
    if |records| == 0 {
      assert EncodeFile(records, crlf) == [];
      assert Split([], '\n') == [[]];
      CollectSingle([]);
    } else {
      SplitEncodedFile(records, crlf);
      ReadLinesValues(records, crlf);
      ParseEncodedLines(records, ReadLines(records, crlf));
    }
  }

  /** The two-record file `:0300300002337A1E` / `:00000001FF` holds the bytes
      02 33 7A. */
  lemma ExampleFile()
    ensures ParseIntelHex(":0300300002337A1E\n:00000001FF\n") == [0x02, 0x33, 0x7A]
  {
    var records := ExampleRecords();
    ExampleText();
    FileRoundTrip(records, false);
    assert records[1..][1..] == [];
  }

  function ExampleRecords(): seq<Record> {
    [Record(0x0030, DataRecordType, [0x02, 0x33, 0x7A], 0x1E), Record(0x0000, EndOfFileType, [], 0xFF)]
  }

  lemma ExampleText()
    ensures EncodeFile(ExampleRecords(), false) == ":0300300002337A1E\n:00000001FF\n"
  {
    var records := ExampleRecords();
    var first, second := ":0300300002337A1E", ":00000001FF";
    ExampleLines();
    var lines := EncodeLines(records, false);
    assert lines[1..] == [second];
    assert Terminate(lines) == first + "\n" + Terminate([second]);
    assert Terminate([second]) == second + "\n" + Terminate([]);
  }

  lemma ExampleLines()
    ensures EncodeLines(ExampleRecords(), false) == [":0300300002337A1E", ":00000001FF"]
  {
    var records := ExampleRecords();
    var data, eof := records[0], records[1];
    ExampleDataRecord();
    ExampleEndOfFile();
    assert records == [data] + [eof];
    assert [data] == [] + [data];
    EncodeLinesSnoc([data], eof, false);
    EncodeLinesSnoc([], data, false);
    assert EncodeLines([], false) == [];
    assert WrittenLine(data, false) == EncodeRecord(data);
    assert WrittenLine(eof, false) == EncodeRecord(eof);
  }

  lemma ExampleDataRecord()
    ensures EncodeRecord(Record(0x0030, DataRecordType, [0x02, 0x33, 0x7A], 0x1E)) == ":0300300002337A1E"
  {
    ExamplePairs();
    ExampleAddress();
    ExampleData();
  }

  lemma ExamplePairs()
    ensures HexPair(0x00) == "00" && HexPair(0x03) == "03" && HexPair(0x1E) == "1E"
  {
  }

  lemma ExampleAddress()
    ensures HexQuad(0x0030) == "0030"
  {
    assert HexPair(0x00) == "00";
    assert HexPair(0x30) == "30";
  }

  lemma ExampleData()
    ensures HexBytes([0x02, 0x33, 0x7A]) == "02337A"
  {
    assert HexPair(0x02) == "02";
    assert HexPair(0x33) == "33";
    assert HexPair(0x7A) == "7A";
    assert [0x02, 0x33, 0x7A][1..] == [0x33, 0x7A];
    assert [0x33, 0x7A][1..] == [0x7A];
  }

  lemma ExampleEndOfFile()
    ensures EncodeRecord(Record(0x0000, EndOfFileType, [], 0xFF)) == ":00000001FF"
  {
    assert HexPair(0x00) == "00";
    assert HexQuad(0x0000) == "0000";
    assert HexPair(0x01) == "01";
    assert HexBytes([]) == "";
    assert HexPair(0xFF) == "FF";
  }
}
