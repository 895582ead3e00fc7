/**
 The text encodings the bridge uses: unpadded base64url (section 5 of RFC 4648), hexadecimal, base 36,
 and dotted parts. Each printer is undone by its parser.
 */
module Encodings {
  import opened Wrappers

  type Byte = x: nat | x < 256

  // ---- Hexadecimal ------------------------------------------------------------------------------------

  function HexDigit(n: nat): char
    requires n < 16
  {
    if n < 10 then ('0' as int + n) as char else ('a' as int + n - 10) as char
  }

  function HexValue(c: char): Option<nat> {
    if '0' <= c <= '9' then Some(c as int - '0' as int)
    else if 'a' <= c <= 'f' then Some(c as int - 'a' as int + 10)
    else if 'A' <= c <= 'F' then Some(c as int - 'A' as int + 10)
    else None
  }

  function HexEncode(bytes: seq<Byte>): (s: string)
    ensures |s| == 2 * |bytes|
  {
    if bytes == [] then "" else [HexDigit(bytes[0] / 16), HexDigit(bytes[0] % 16)] + HexEncode(bytes[1..])
  }

  function HexDecode(s: string): Option<seq<Byte>> {
    if s == "" then Some([])
    else if |s| == 1 then None
    else
      var high, low, rest := HexValue(s[0]), HexValue(s[1]), HexDecode(s[2..]);
      if high.None? || low.None? || rest.None? || high.value > 15 || low.value > 15 then None
      else Some([16 * high.value + low.value] + rest.value)
  }

  predicate IsLower(s: string) {
    forall i :: 0 <= i < |s| ==> !('A' <= s[i] <= 'Z')
  }

  lemma HexDigitRoundTrip(n: nat)
    requires n < 16
    ensures HexValue(HexDigit(n)) == Some(n)
  {
  }

  lemma {:induction false} HexRoundTrip(bytes: seq<Byte>)
    ensures HexDecode(HexEncode(bytes)) == Some(bytes)
  {
    if bytes != [] {
      HexRoundTrip(bytes[1..]);
      var s := HexEncode(bytes);
      assert s[0] == HexDigit(bytes[0] / 16) && s[1] == HexDigit(bytes[0] % 16);
      assert s[2..] == HexEncode(bytes[1..]);
      HexDigitRoundTrip(bytes[0] / 16);
      HexDigitRoundTrip(bytes[0] % 16);
      assert 16 * (bytes[0] / 16) + bytes[0] % 16 == bytes[0];
      assert bytes == [bytes[0]] + bytes[1..];
    }
  }

  lemma {:induction false} HexIsCanonical(s: string)
    requires HexDecode(s).Some? && IsLower(s)
    ensures HexEncode(HexDecode(s).value) == s
  {
    if s != "" {
      HexIsCanonical(s[2..]);
      var high, low := HexValue(s[0]).value, HexValue(s[1]).value;
      assert (16 * high + low) / 16 == high && (16 * high + low) % 16 == low;
      assert HexDecode(s).value[1..] == HexDecode(s[2..]).value;
      assert s == [s[0], s[1]] + s[2..];
    }
  }

  predicate IsHexText(s: string) {
    forall i :: 0 <= i < |s| ==> '0' <= s[i] <= '9' || 'a' <= s[i] <= 'f'
  }

  lemma {:induction false} HexEncodeIsHexText(bytes: seq<Byte>)
    ensures IsHexText(HexEncode(bytes))
  {
    if bytes != [] {
      HexEncodeIsHexText(bytes[1..]);
    }
  }

  // ---- Base64url --------------------------------------------------------------------------------------

  function Letter(n: nat): char
    requires n < 64
  {
    if n < 26 then ('A' as int + n) as char
    else if n < 52 then ('a' as int + n - 26) as char
    else if n < 62 then ('0' as int + n - 52) as char
    else if n == 62 then '-' else '_'
  }

  function LetterValue(c: char): (r: Option<nat>)
    ensures r.Some? ==> r.value < 64
  {
    if 'A' <= c <= 'Z' then Some(c as int - 'A' as int)
    else if 'a' <= c <= 'z' then Some(c as int - 'a' as int + 26)
    else if '0' <= c <= '9' then Some(c as int - '0' as int + 52)
    else if c == '-' then Some(62)
    else if c == '_' then Some(63)
    else None
  }

  predicate AreSixBits(v: seq<nat>) {
    forall i :: 0 <= i < |v| ==> v[i] < 64
  }

  /** The bytes in groups of six bits, the last group filled up with zeros. */
  function Pack(b: seq<Byte>): (v: seq<nat>)
    ensures AreSixBits(v)
  {
    if b == [] then []
    else if |b| == 1 then [b[0] / 4, b[0] % 4 * 16]
    else if |b| == 2 then [b[0] / 4, b[0] % 4 * 16 + b[1] / 16, b[1] % 16 * 4]
    else [b[0] / 4, b[0] % 4 * 16 + b[1] / 16, b[1] % 16 * 4 + b[2] / 64, b[2] % 64] + Pack(b[3..])
  }

  function Encode(b: seq<Byte>): string {
    var v := Pack(b);
    seq(|v|, i requires 0 <= i < |v| => Letter(v[i]))
  }

  predicate IsBase64Text(s: string) {
    forall i :: 0 <= i < |s| ==> LetterValue(s[i]).Some?
  }

  function Values(s: string): (v: seq<nat>)
    requires IsBase64Text(s)
    ensures AreSixBits(v)
  {
    seq(|s|, i requires 0 <= i < |s| => LetterValue(s[i]).value)
  }

  /** Left-over bits of a short last group are dropped, as the decoder does. */
  function Unpack(v: seq<nat>): Option<seq<Byte>>
    requires AreSixBits(v)
  {
    if v == [] then Some([])
    else if |v| == 1 then None
    else if |v| == 2 then Some([v[0] * 4 + v[1] / 16])
    else if |v| == 3 then Some([v[0] * 4 + v[1] / 16, v[1] % 16 * 16 + v[2] / 4])
    else
      var rest := Unpack(v[4..]);
      if rest.None? then None
      else Some([v[0] * 4 + v[1] / 16, v[1] % 16 * 16 + v[2] / 4, v[2] % 4 * 64 + v[3]] + rest.value)
  }

  /** The decoder skips line breaks. */
  function SkipBreaks(s: string): string {
    if s == "" then "" else (if s[0] == '\r' || s[0] == '\n' then "" else [s[0]]) + SkipBreaks(s[1..])
  }

  function Decode(s: string): Option<seq<Byte>> {
    var text := SkipBreaks(s);
    if IsBase64Text(text) then Unpack(Values(text)) else None
  }

  /** Decodes only text that is exactly what the printer would have written. */
  function DecodeExact(s: string): (r: Option<seq<Byte>>)
    ensures r.Some? ==> Encode(r.value) == s
  {
    var decoded := Decode(s);
    if decoded.Some? && Encode(decoded.value) == s then decoded else None
  }

  lemma LetterRoundTrip(n: nat)
    requires n < 64
    ensures LetterValue(Letter(n)) == Some(n)
  {
  }

  lemma {:induction false} PackRoundTrip(b: seq<Byte>)
    ensures Unpack(Pack(b)) == Some(b)
  {
    if |b| >= 3 {
      PackRoundTrip(b[3..]);
      assert Pack(b)[4..] == Pack(b[3..]);
      assert b == [b[0], b[1], b[2]] + b[3..];
    } else if |b| == 2 {
      assert b == [b[0], b[1]];
    } else if |b| == 1 {
      assert b == [b[0]];
    }
  }

  lemma {:induction false} NothingSkipped(s: string)
    requires IsBase64Text(s)
    ensures SkipBreaks(s) == s
  {
    if s != "" {
      NothingSkipped(s[1..]);
    }
  }

  /** Whatever the bytes, the text of them decodes to them. */
  lemma Base64RoundTrip(b: seq<Byte>)
    ensures DecodeExact(Encode(b)) == Some(b) && IsBase64Text(Encode(b))
  {
    var v, s := Pack(b), Encode(b);
    forall i | 0 <= i < |s| ensures LetterValue(s[i]) == Some(v[i]) {
      LetterRoundTrip(v[i]);
    }
    assert Values(s) == v;
    NothingSkipped(s);
    PackRoundTrip(b);
  }

  lemma {:induction false} EncodedLength(b: seq<Byte>)
    ensures |Encode(b)| == |b| / 3 * 4 + (if |b| % 3 == 0 then 0 else |b| % 3 + 1)
  {
    if |b| >= 3 {
      EncodedLength(b[3..]);
    }
  }

  // ---- Base 36 ----------------------------------------------------------------------------------------

  const MAX_INT64: int := 9223372036854775807

  function Digit36(n: nat): char
    requires n < 36
  {
    if n < 10 then ('0' as int + n) as char else ('a' as int + n - 10) as char
  }

  function Value36(c: char): (r: Option<nat>)
    ensures r.Some? ==> r.value < 36
  {
    if '0' <= c <= '9' then Some(c as int - '0' as int)
    else if 'a' <= c <= 'z' then Some(c as int - 'a' as int + 10)
    else if 'A' <= c <= 'Z' then Some(c as int - 'A' as int + 10)
    else None
  }

  function Digits36(n: nat): string {
    if n < 36 then [Digit36(n)] else Digits36(n / 36) + [Digit36(n % 36)]
  }

  function Print36(n: int): string {
    if n < 0 then "-" + Digits36(-n) else Digits36(n)
  }

  /** The number a nonempty run of digits stands for. */
  function Number36(s: string): Option<nat> {
    if s == "" then None
    else
      var last := Value36(s[|s| - 1]);
      if last.None? then None
      else if |s| == 1 then last
      else
        var earlier := Number36(s[..|s| - 1]);
        if earlier.None? then None else Some(36 * earlier.value + last.value)
  }

  /** An optional sign and digits, within 64 bits. */
  function Parse36(s: string): Option<int> {
    var signed := s != "" && (s[0] == '-' || s[0] == '+');
    var parsed := Number36(if signed then s[1..] else s);
    if parsed.None? then None
    else
      var magnitude: int := parsed.value;
      if signed && s[0] == '-' then if magnitude > MAX_INT64 + 1 then None else Some(-magnitude)
      else if magnitude > MAX_INT64 then None
      else Some(magnitude)
  }

  predicate IsDigits36(s: string) {
    forall i :: 0 <= i < |s| ==> Value36(s[i]).Some?
  }

  lemma {:induction false} Digits36RoundTrip(n: nat)
    ensures Number36(Digits36(n)) == Some(n) && IsDigits36(Digits36(n)) && Digits36(n) != ""
  {
    if n >= 36 {
      Digits36RoundTrip(n / 36);
      var s := Digits36(n);
      assert s[..|s| - 1] == Digits36(n / 36);
      assert 36 * (n / 36) + n % 36 == n;
    }
  }

  lemma SignedParse(digits: string, n: int)
    requires Number36(digits).Some? && Number36(digits).value == n && n <= MAX_INT64
    ensures Parse36("-" + digits) == Some(-n)
  {
    assert ("-" + digits)[1..] == digits;
  }

  lemma UnsignedParse(digits: string, n: nat)
    requires Number36(digits) == Some(n) && n <= MAX_INT64 && digits != "" && Value36(digits[0]).Some?
    ensures Parse36(digits) == Some(n)
  {
  }

  lemma Base36RoundTrip(n: int)
    requires -MAX_INT64 <= n <= MAX_INT64
    ensures Parse36(Print36(n)) == Some(n)
  {
    if n < 0 {
      Digits36RoundTrip(-n);
      SignedParse(Digits36(-n), -n);
    } else {
      Digits36RoundTrip(n);
      UnsignedParse(Digits36(n), n);
    }
  }

  // ---- Dotted parts -----------------------------------------------------------------------------------

  function Split(s: string): (parts: seq<string>)
    ensures parts != []
  {
    if s == "" then [""]
    else
      var rest := Split(s[1..]);
      if s[0] == '.' then [""] + rest else [[s[0]] + rest[0]] + rest[1..]
  }

  function Join(parts: seq<string>): string {
    if parts == [] then "" else if |parts| == 1 then parts[0] else parts[0] + "." + Join(parts[1..])
  }

  predicate IsDotless(s: string) {
    '.' !in s
  }

  lemma {:induction false} SplitFirst(part: string, rest: string)
    requires IsDotless(part)
    ensures Split(part + "." + rest) == [part] + Split(rest)
  {
    var s := part + "." + rest;
    if part == "" {
      assert s == "." + rest && s[1..] == rest;
    } else {
      assert s[1..] == part[1..] + "." + rest;
      SplitFirst(part[1..], rest);
      assert [part[0]] + part[1..] == part;
    }
  }

  lemma {:induction false} SplitWhole(part: string)
    requires IsDotless(part)
    ensures Split(part) == [part]
  {
    if part != "" {
      SplitWhole(part[1..]);
      assert [part[0]] + part[1..] == part;
    }
  }

  /** Parts without dots survive being joined and split again. */
  lemma {:induction false} SplitJoin(parts: seq<string>)
    requires parts != [] && forall i :: 0 <= i < |parts| ==> IsDotless(parts[i])
    ensures Split(Join(parts)) == parts
  {
    if |parts| == 1 {
      SplitWhole(parts[0]);
    } else {
      SplitJoin(parts[1..]);
      SplitFirst(parts[0], Join(parts[1..]));
    }
  }

  lemma {:induction false} JoinSplit(s: string)
    ensures Join(Split(s)) == s
  {
    if s != "" {
      JoinSplit(s[1..]);
      var rest := Split(s[1..]);
      if s[0] != '.' {
        var parts := [[s[0]] + rest[0]] + rest[1..];
        assert parts[1..] == rest[1..];
      } else {
        assert ([""] + rest)[1..] == rest;
      }
    }
  }
}
