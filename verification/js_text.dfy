/**
 * The JavaScript built-ins the HEX parser leans on, with their edge cases:
 * `String.prototype.trim`, `split` on a one-character separator, `substr`,
 * `parseInt(_, 16)` and the element conversion of `new Uint8Array(array)`.
 * Strings are sequences of characters indexed from 0, as in the ECMAScript
 * language specification.
 */
module JsText {
  import opened Hex
  import opened Seqs

  /** A number as `parseInt` returns it. `-0` and `+0` are both `Int(0)`:
      nothing the parser does with a number (`=== 0`, `<`, the conversion to
      a byte) tells them apart. */
  datatype JsNumber = NaN | Int(value: int)


  /** WhiteSpace or LineTerminator (sections 12.2 and 12.3 of ECMA-262), the
      characters that `trim` and `parseInt` skip. */
  predicate IsWhitespace(c: char) {
    || c == '\t' || c == '\n' || c == '\U{B}' || c == '\U{C}' || c == '\r'
    || c == ' ' || c == '\U{A0}' || c == '\U{1680}'
    || ('\U{2000}' <= c <= '\U{200A}')
    || c == '\U{2028}' || c == '\U{2029}' || c == '\U{202F}' || c == '\U{205F}'
    || c == '\U{3000}' || c == '\U{FEFF}'
  }

  /** `s` with its leading whitespace removed. */
  function TrimStart(s: string): (r: string)
    ensures |r| <= |s|
  {
    if |s| > 0 && IsWhitespace(s[0]) then TrimStart(s[1..]) else s
  }

  /** `TrimStart` drops exactly the whitespace run at the front. */
  lemma {:induction false} TrimStartFacts(s: string)
    ensures TrimStart(s) == s[|s| - |TrimStart(s)|..]
    ensures forall k :: 0 <= k < |s| - |TrimStart(s)| ==> IsWhitespace(s[k])
    ensures TrimStart(s) == [] || !IsWhitespace(TrimStart(s)[0])
    decreases |s|
  {
    if |s| > 0 && IsWhitespace(s[0]) {
      TrimStartFacts(s[1..]);
      assert forall k :: 1 <= k < |s| ==> s[k] == s[1..][k - 1];
    }
  }

  /** `s` with its trailing whitespace removed. */
  function TrimEnd(s: string): (r: string)
    ensures |r| <= |s|
  {
    if |s| > 0 && IsWhitespace(s[|s| - 1]) then TrimEnd(s[..|s| - 1]) else s
  }

  /** `TrimEnd` drops exactly the whitespace run at the back. */
  lemma {:induction false} TrimEndFacts(s: string)
    ensures TrimEnd(s) == s[..|TrimEnd(s)|]
    ensures forall k :: |TrimEnd(s)| <= k < |s| ==> IsWhitespace(s[k])
    ensures TrimEnd(s) == [] || !IsWhitespace(TrimEnd(s)[|TrimEnd(s)| - 1])
    decreases |s|
  {
    if |s| > 0 && IsWhitespace(s[|s| - 1]) {
      TrimEndFacts(s[..|s| - 1]);
    }
  }

  /** `s.trim()`: the part of `s` between a leading and a trailing run of
      whitespace, neither starting nor ending with whitespace itself. */
  function Trim(s: string): (r: string)
    ensures r == [] || (!IsWhitespace(r[0]) && !IsWhitespace(r[|r| - 1]))
    ensures |r| <= |s|
    ensures var i := |s| - |TrimStart(s)|;
      && i + |r| <= |s|
      && r == s[i..i + |r|]
      && (forall k :: 0 <= k < i ==> IsWhitespace(s[k]))
      && (forall k :: i + |r| <= k < |s| ==> IsWhitespace(s[k]))
  {
    TrimSpan(s);
    TrimEnd(TrimStart(s))
  }

  /** Where the trimmed text sits inside `s`. */
  lemma TrimSpan(s: string)
    ensures var r, i := TrimEnd(TrimStart(s)), |s| - |TrimStart(s)|;
      && (r == [] || (!IsWhitespace(r[0]) && !IsWhitespace(r[|r| - 1])))
      && i + |r| <= |s|
      && r == s[i..i + |r|]
      && (forall k :: 0 <= k < i ==> IsWhitespace(s[k]))
      && (forall k :: i + |r| <= k < |s| ==> IsWhitespace(s[k]))
  {
    TrimStartFacts(s);
    TrimEndFacts(TrimStart(s));
    TrimSlice(s);
    TrimTail(s);
  }

  /** The trimmed text is a contiguous part of `s`. */
  lemma TrimSlice(s: string)
    ensures var r, i := TrimEnd(TrimStart(s)), |s| - |TrimStart(s)|;
      i + |r| <= |s| && r == s[i..i + |r|]
  {
    var t := TrimStart(s);
    TrimStartFacts(s);
    TrimEndFacts(t);
  }

  /** Everything after the trimmed text is whitespace. */
  lemma TrimTail(s: string)
    ensures var r, i := TrimEnd(TrimStart(s)), |s| - |TrimStart(s)|;
      forall k :: i + |r| <= k < |s| ==> IsWhitespace(s[k])
  {
    var t := TrimStart(s);
    TrimStartFacts(s);
    TrimEndFacts(t);
    var i := |s| - |t|;
    forall k | i + |TrimEnd(t)| <= k < |s|
      ensures IsWhitespace(s[k])
    {
      assert s[k] == t[k - i];
    }
  }

  /** A string that starts and ends with non-whitespace is its own trim. */
  lemma TrimOfTrimmed(s: string)
    requires |s| > 0 && !IsWhitespace(s[0]) && !IsWhitespace(s[|s| - 1])
    ensures Trim(s) == s
  {
  }

  lemma {:induction false} TrimEndOfWhitespace(s: string, w: string)
    requires |s| > 0 && !IsWhitespace(s[|s| - 1])
    requires forall k :: 0 <= k < |w| ==> IsWhitespace(w[k])
    ensures TrimEnd(s + w) == s
    decreases |w|
  {
    if |w| > 0 {
      assert (s + w)[..|s + w| - 1] == s + w[..|w| - 1];
      TrimEndOfWhitespace(s, w[..|w| - 1]);
    } else {
      assert s + w == s;
    }
  }

  /** Trailing whitespace is trimmed from the end of `rest` alone when `rest`
      holds something other than whitespace. */
  lemma {:induction false} TrimEndBehind(p: string, rest: string)
    requires TrimEnd(rest) != []
    ensures TrimEnd(p + rest) == p + TrimEnd(rest)
    decreases |rest|
  {
    var n := |rest|;
    if IsWhitespace(rest[n - 1]) {
      assert (p + rest)[..|p + rest| - 1] == p + rest[..n - 1];
      TrimEndBehind(p, rest[..n - 1]);
    }
  }

  /** Trailing whitespace after a trimmed text is trimmed away. */
  lemma TrimWithWhitespaceTail(s: string, w: string)
    requires |s| > 0 && !IsWhitespace(s[0]) && !IsWhitespace(s[|s| - 1])
    requires forall k :: 0 <= k < |w| ==> IsWhitespace(w[k])
    ensures Trim(s + w) == s
  {
    assert (s + w)[0] == s[0];
    assert TrimStart(s + w) == s + w;
    TrimEndOfWhitespace(s, w);
  }

  /** Joins `pieces` with `sep` between neighbours; the inverse of `Split`. */
  function Join(pieces: seq<string>, sep: char): string {
    if |pieces| == 0 then []
    else if |pieces| == 1 then pieces[0]
    else pieces[0] + [sep] + Join(pieces[1..], sep)
  }

  predicate Separated(pieces: seq<string>, sep: char) {
    forall k :: 0 <= k < |pieces| ==> sep !in pieces[k]
  }

  /** `s.split(sep)` for a one-character separator: the pieces between
      separators, never an empty list (`"".split(sep)` is `[""]`). */
  function Split(s: string, sep: char): (r: seq<string>)
    ensures |r| >= 1
    ensures Separated(r, sep)
    ensures Join(r, sep) == s
  {
    if |s| == 0 then [[]]
    else
      var rest := Split(s[1..], sep);
      if s[0] == sep then
        assert s == [sep] + s[1..];
        [[]] + rest
      else
        var r := [[s[0]] + rest[0]] + rest[1..];
        assert r[1..] == rest[1..];
        if |rest| == 1 then
          assert Join(r, sep) == [s[0]] + rest[0];
          r
        else
          assert Join(rest, sep) == rest[0] + [sep] + Join(rest[1..], sep);
          assert Join(r, sep) == [s[0]] + (rest[0] + [sep] + Join(rest[1..], sep));
          assert s == [s[0]] + s[1..];
          r
  }

  /** A join starts with its first piece and ends with its last. */
  lemma {:induction false} JoinEnds(pieces: seq<string>, sep: char)
    requires |pieces| > 0
    ensures |Join(pieces, sep)| >= |pieces[0]| && |Join(pieces, sep)| >= |pieces[|pieces| - 1]|
    ensures Join(pieces, sep)[..|pieces[0]|] == pieces[0]
    ensures Join(pieces, sep)[|Join(pieces, sep)| - |pieces[|pieces| - 1]|..] == pieces[|pieces| - 1]
    decreases |pieces|
  {
    if |pieces| > 1 {
      JoinEnds(pieces[1..], sep);
      var j := Join(pieces, sep);
      assert j == pieces[0] + ([sep] + Join(pieces[1..], sep));
    }
  }

  lemma {:induction false} JoinSnoc(init: seq<string>, last: string, sep: char)
    requires |init| > 0
    ensures Join(init + [last], sep) == Join(init, sep) + [sep] + last
    decreases |init|
  {
    assert (init + [last])[1..] == init[1..] + [last];
    if |init| > 1 {
      JoinSnoc(init[1..], last, sep);
    }
  }

  /** Where the first separator of a join sits. */
  lemma {:induction false} JoinFirstPiece(pieces: seq<string>, sep: char)
    requires |pieces| >= 1 && Separated(pieces, sep)
    ensures |pieces| == 1 ==> sep !in Join(pieces, sep)
    ensures |pieces| > 1 ==>
              && |Join(pieces, sep)| > |pieces[0]|
              && Join(pieces, sep)[..|pieces[0]|] == pieces[0]
              && Join(pieces, sep)[|pieces[0]|] == sep
              && Join(pieces, sep)[|pieces[0]| + 1..] == Join(pieces[1..], sep)
  {
    if |pieces| > 1 {
      var j := Join(pieces, sep);
      assert j == pieces[0] + ([sep] + Join(pieces[1..], sep));
    }
  }

  /** Joining is injective on separator-free lists of pieces. */
  lemma {:induction false} JoinInjective(a: seq<string>, b: seq<string>, sep: char)
    requires |a| >= 1 && |b| >= 1 && Separated(a, sep) && Separated(b, sep)
    requires Join(a, sep) == Join(b, sep)
    ensures a == b
    decreases |a|
  {
    JoinFirstPiece(a, sep);
    JoinFirstPiece(b, sep);
    if |a| == 1 && |b| > 1 {
      assert false;
    } else if |a| > 1 && |b| == 1 {
      assert false;
    } else if |a| > 1 && |b| > 1 {
      if |a[0]| < |b[0]| {
        assert false;
      } else if |b[0]| < |a[0]| {
        assert false;
      }
      assert a[0] == b[0];
      assert Separated(a[1..], sep) && Separated(b[1..], sep);
      JoinInjective(a[1..], b[1..], sep);
      assert a == [a[0]] + a[1..];
      assert b == [b[0]] + b[1..];
    }
  }

  /** Splitting undoes joining: the lines of a text written out with `sep`
      between them come back as they were. */
  lemma SplitJoin(pieces: seq<string>, sep: char)
    requires |pieces| >= 1 && Separated(pieces, sep)
    ensures Split(Join(pieces, sep), sep) == pieces
  {
    JoinInjective(Split(Join(pieces, sep), sep), pieces, sep);
  }

  /** A first piece free of separators comes off the front of a split. */
  lemma SplitFirst(first: string, rest: string, sep: char)
    requires sep !in first
    ensures Split(first + [sep] + rest, sep) == [first] + Split(rest, sep)
  {
    var pieces := [first] + Split(rest, sep);
    assert pieces[1..] == Split(rest, sep);
    assert Join(pieces, sep) == first + [sep] + rest;
    SplitJoin(pieces, sep);
  }

  /** `s.substr(start, length)`: at most `length` characters of `s` from
      `start` on; empty when `start` is at or past the end. */
  function Substr(s: string, start: nat, length: nat): (r: string)
    ensures |r| == Min(length, |s| - Min(start, |s|))
    ensures start < |s| ==> r == s[start..start + |r|]
    ensures start >= |s| ==> r == []
  {
    var from := Min(start, |s|);
    s[from..Min(from + length, |s|)]
  }

  /** The longest prefix of `s` made of hex digits. */
  function HexPrefix(s: string): (r: string)
    ensures |r| <= |s|
  {
    if |s| > 0 && IsHexDigit(s[0]) then [s[0]] + HexPrefix(s[1..]) else []
  }

  /** `HexPrefix` stops at the first character that is not a hex digit. */
  lemma {:induction false} HexPrefixFacts(s: string)
    ensures HexPrefix(s) == s[..|HexPrefix(s)|]
    ensures AllHexDigits(HexPrefix(s))
    ensures |HexPrefix(s)| < |s| ==> !IsHexDigit(s[|HexPrefix(s)|])
    decreases |s|
  {
    if |s| > 0 && IsHexDigit(s[0]) {
      HexPrefixFacts(s[1..]);
      var r := HexPrefix(s);
      assert forall k :: 1 <= k < |r| ==> r[k] == HexPrefix(s[1..])[k - 1];
    }
  }

  /** The sign and the magnitude text `parseInt` reads once leading
      whitespace is gone: an optional `-` or `+`, then, because the radix is
      16, an optional `0x` or `0X` prefix. */
  function SignOf(t: string): bool {
    |t| > 0 && t[0] == '-'
  }

  function Unsigned(t: string): (u: string)
    ensures |u| <= |t|
  {
    var m := if |t| > 0 && (t[0] == '-' || t[0] == '+') then t[1..] else t;
    if |m| >= 2 && m[0] == '0' && (m[1] == 'x' || m[1] == 'X') then m[2..] else m
  }

  /** `parseInt(s, 16)` (section 19.2.5 of ECMA-262): skips leading
      whitespace, reads a sign and an optional `0x`, then as many hex digits
      as follow; `NaN` when there are none. */
  function ParseIntHex(s: string): (r: JsNumber)
  {
    var t := TrimStart(s);
    var digits := HexPrefix(Unsigned(t));
    HexPrefixFacts(Unsigned(t));
    if |digits| == 0 then NaN
    else if SignOf(t) then Int(-(HexValue(digits) as int))
    else Int(HexValue(digits))
  }

  /** On a string of hex digits `parseInt(_, 16)` is the digits' value, as
      an exact integer. */
  lemma ParseIntHexOfDigits(s: string)
    requires |s| > 0 && AllHexDigits(s)
    ensures ParseIntHex(s) == Int(HexValue(s))
  {
    assert TrimStart(s) == s by {
      assert !IsWhitespace(s[0]);
    }
    assert !IsHexDigit('x') && !IsHexDigit('X');
    assert Unsigned(s) == s;
    assert HexPrefix(s) == s by {
      HexPrefixFacts(s);
      if |HexPrefix(s)| < |s| {
        assert false;
      }
    }
  }

  /** Reading back a byte's two-digit spelling gives the byte. */
  lemma ParseIntHexPair(b: byte)
    ensures ParseIntHex(HexPair(b)) == Int(b)
  {
    HexPairValue(b);
    ParseIntHexOfDigits(HexPair(b));
  }

  /** What two characters can parse to: `NaN`, or a value from `-f` (-15) to
      `ff` (255). */
  lemma ParseIntHexOfTwo(s: string)
    requires |s| <= 2
    ensures ParseIntHex(s).Int? ==> -15 <= ParseIntHex(s).value <= 255
    ensures s == [] ==> ParseIntHex(s) == NaN
  {
    var t := TrimStart(s);
    var digits := HexPrefix(Unsigned(t));
    HexPrefixFacts(Unsigned(t));
    if |digits| > 0 {
      if SignOf(t) {
        assert |digits| <= 1;
        assert Pow16(1) == 16;
      } else {
        assert Pow16(2) == 256 by {
          assert Pow16(1) == 16;
        }
        assert Pow16(|digits|) <= 256 by {
          assert Pow16(1) == 16;
        }
      }
    }
  }

  /** The conversion a `Uint8Array` applies to each element (ToUint8,
      section 7.1.11 of ECMA-262): `NaN` becomes 0, an integer is taken
      modulo 256. */
  function ToUint8(n: JsNumber): (b: byte)
    ensures n.NaN? ==> b == 0
    ensures n.Int? ==> (n.value - b) % 256 == 0
    ensures n.Int? && 0 <= n.value < 256 ==> b == n.value
  {
    match n
    case NaN => 0
    case Int(v) => v % 256
  }

  /** `new Uint8Array(values)`. */
  function ToUint8Array(values: seq<JsNumber>): (r: seq<byte>)
    ensures |r| == |values|
    ensures forall k :: 0 <= k < |r| ==> r[k] == ToUint8(values[k])
  {
    if |values| == 0 then [] else [ToUint8(values[0])] + ToUint8Array(values[1..])
  }

  lemma ToUint8ArrayAppend(a: seq<JsNumber>, b: seq<JsNumber>)
    ensures ToUint8Array(a + b) == ToUint8Array(a) + ToUint8Array(b)
  {
  }
}
