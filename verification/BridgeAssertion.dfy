/**
 The session bridge: the service that prints an assertion and the game server that parses it. The
 keyed hash is an unknown function with results of 32 bytes.
 */
module BridgeAssertion {
  import opened Wrappers
  import opened Encodings

  const NONCE_BYTES := 16
  const SIGNATURE_BYTES := 32
  const MAXIMUM_LENGTH := 128
  const MAXIMUM_TTL := 60
  const VERSION := "v1"

  // ---- The two forms of a version 7 UUID ---------------------------------------------------------------

  /** Sixteen bytes with the version and variant bits of section 5.7 of RFC 9562. */
  predicate IsUuidV7(b: seq<Byte>) {
    |b| == 16 && b[6] / 16 == 7 && b[8] / 64 == 2
  }

  function Dashed(hex: string): string
    requires |hex| == 32
  {
    FiveDashed(hex[0..8], hex[8..12], hex[12..16], hex[16..20], hex[20..32])
  }

  function FiveDashed(a: string, b: string, c: string, d: string, e: string): string {
    a + "-" + (b + "-" + (c + "-" + (d + "-" + e)))
  }

  function WithoutDashes(s: string): (r: string)
    ensures |r| <= |s|
  {
    if s == "" then "" else (if s[0] == '-' then "" else [s[0]]) + WithoutDashes(s[1..])
  }

  function CompactToCanonical(encoded: string): Option<string> {
    var bytes := DecodeExact(encoded);
    if bytes.None? || !IsUuidV7(bytes.value) then None else Some(Dashed(HexEncode(bytes.value)))
  }

  predicate HasDashes(value: string) {
    |value| == 36 && value[8] == '-' && value[13] == '-' && value[18] == '-' && value[23] == '-'
  }

  function CanonicalToCompact(value: string): Option<string> {
    if !HasDashes(value) || !IsLower(value) then None
    else
      var bytes := HexDecode(WithoutDashes(value));
      if bytes.None? || !IsUuidV7(bytes.value) then None else Some(Encode(bytes.value))
  }

  lemma {:induction false} DashesConcat(a: string, b: string)
    ensures WithoutDashes(a + b) == WithoutDashes(a) + WithoutDashes(b)
  {
    if a == "" {
      assert a + b == b;
    } else {
      assert (a + b)[1..] == a[1..] + b;
      DashesConcat(a[1..], b);
    }
  }

  lemma {:induction false} NoDashes(s: string)
    requires '-' !in s
    ensures WithoutDashes(s) == s
  {
    if s != "" {
      NoDashes(s[1..]);
    }
  }

  lemma {:induction false} SameLengthNoDashes(s: string)
    requires |WithoutDashes(s)| == |s|
    ensures WithoutDashes(s) == s
  {
    if s != "" {
      SameLengthNoDashes(s[1..]);
    }
  }

  lemma OneDash(a: string, rest: string)
    ensures WithoutDashes(a + "-" + rest) == WithoutDashes(a) + WithoutDashes(rest)
  {
    assert WithoutDashes("-") == "";
    DashesConcat(a + "-", rest);
    DashesConcat(a, "-");
  }

  lemma FiveParts(a: string, b: string, c: string, d: string, e: string)
    ensures WithoutDashes(FiveDashed(a, b, c, d, e))
         == WithoutDashes(a) + (WithoutDashes(b) + (WithoutDashes(c) + (WithoutDashes(d) + WithoutDashes(e))))
  {
    OneDash(d, e);
    OneDash(c, d + "-" + e);
    OneDash(b, c + "-" + (d + "-" + e));
    OneDash(a, b + "-" + (c + "-" + (d + "-" + e)));
  }

  lemma SliceNoDashes(s: string, i: nat, j: nat)
    requires '-' !in s && i <= j <= |s|
    ensures WithoutDashes(s[i..j]) == s[i..j]
  {
    NoDashes(s[i..j]);
  }

  lemma UndashDashed(hex: string)
    requires |hex| == 32 && '-' !in hex
    ensures WithoutDashes(Dashed(hex)) == hex
  {
    var a, b, c, d, e := hex[0..8], hex[8..12], hex[12..16], hex[16..20], hex[20..32];
    FiveParts(a, b, c, d, e);
    SliceNoDashes(hex, 0, 8);
    SliceNoDashes(hex, 8, 12);
    SliceNoDashes(hex, 12, 16);
    SliceNoDashes(hex, 16, 20);
    SliceNoDashes(hex, 20, 32);
    assert hex == a + (b + (c + (d + e)));
  }

  lemma DashUndashed(value: string)
    requires HasDashes(value) && |WithoutDashes(value)| == 32
    ensures Dashed(WithoutDashes(value)) == value
  {
    var a, b, c, d, e := value[0..8], value[9..13], value[14..18], value[19..23], value[24..36];
    assert value == FiveDashed(a, b, c, d, e);
    FiveParts(a, b, c, d, e);
    SameLengthNoDashes(a);
    SameLengthNoDashes(b);
    SameLengthNoDashes(c);
    SameLengthNoDashes(d);
    SameLengthNoDashes(e);
    SplitBack(a, b, c, d, e, WithoutDashes(value));
  }

  lemma SplitBack(a: string, b: string, c: string, d: string, e: string, hex: string)
    requires |a| == 8 && |b| == |c| == |d| == 4 && |e| == 12
    requires hex == a + (b + (c + (d + e)))
    ensures hex[0..8] == a && hex[8..12] == b && hex[12..16] == c && hex[16..20] == d && hex[20..32] == e
  {
  }

  lemma DashedIsCanonical(hex: string)
    requires |hex| == 32 && IsHexText(hex)
    ensures HasDashes(Dashed(hex)) && IsLower(Dashed(hex))
  {
    var value := Dashed(hex);
    forall i | 0 <= i < |value| ensures value[i] == '-' || value[i] in hex {
    }
    forall i | 0 <= i < |value| ensures !('A' <= value[i] <= 'Z') {
      assert value[i] in hex ==> exists k :: 0 <= k < |hex| && hex[k] == value[i];
    }
  }

  /** A compact form that is accepted comes back from its canonical form. */
  lemma CompactComesBack(encoded: string)
    requires CompactToCanonical(encoded).Some?
    ensures CanonicalToCompact(CompactToCanonical(encoded).value) == Some(encoded)
  {
    var bytes := DecodeExact(encoded).value;
    var hex := HexEncode(bytes);
    HexEncodeIsHexText(bytes);
    assert '-' !in hex;
    UndashDashed(hex);
    HexRoundTrip(bytes);
    DashedIsCanonical(hex);
  }

  /** A canonical form that is accepted comes back from its compact form. */
  lemma CanonicalComesBack(value: string)
    requires CanonicalToCompact(value).Some?
    ensures CompactToCanonical(CanonicalToCompact(value).value) == Some(value)
  {
    var plain := WithoutDashes(value);
    var bytes := HexDecode(plain).value;
    Base64RoundTrip(bytes);
    PlainIsLower(value);
    HexIsCanonical(plain);
    DashUndashed(value);
  }

  lemma {:induction false} PlainIsLower(s: string)
    requires IsLower(s)
    ensures IsLower(WithoutDashes(s))
  {
    if s != "" {
      PlainIsLower(s[1..]);
    }
  }

  // ---- The printing side's own view of a UUID -----------------------------------------------------------

  predicate IsHexDigit(c: char) {
    '0' <= c <= '9' || 'a' <= c <= 'f'
  }

  /** The pattern of the printing side: lower-case digits, dashes, the version digit and the variant digit. */
  predicate MatchesPattern(value: string) {
    && HasDashes(value)
    && (forall i :: 0 <= i < 36 && i != 8 && i != 13 && i != 18 && i != 23 ==> IsHexDigit(value[i]))
    && value[14] == '7' && (value[19] == '8' || value[19] == '9' || value[19] == 'a' || value[19] == 'b')
  }

  /** What the printing side writes for a UUID; it has checked the pattern before. */
  function CompactUuid(value: string): string {
    var bytes := HexDecode(WithoutDashes(value));
    if bytes.Some? then Encode(bytes.value) else ""
  }

  lemma {:induction false} HexDecodesDigits(s: string)
    requires |s| % 2 == 0 && IsHexText(s)
    ensures HexDecode(s).Some? && |HexDecode(s).value| == |s| / 2
    ensures forall i :: 0 <= i < |s| / 2 ==>
              HexDecode(s).value[i] == 16 * HexValue(s[2 * i]).value + HexValue(s[2 * i + 1]).value
  {
    if s != "" {
      HexDecodesDigits(s[2..]);
      forall i | 0 <= i < |s| / 2
        ensures HexDecode(s).value[i] == 16 * HexValue(s[2 * i]).value + HexValue(s[2 * i + 1]).value
      {
        if i > 0 {
          assert HexDecode(s).value[i] == HexDecode(s[2..]).value[i - 1];
          assert s[2..][2 * (i - 1)] == s[2 * i] && s[2..][2 * (i - 1) + 1] == s[2 * i + 1];
        }
      }
    }
  }

  lemma {:induction false} DecodedIsHexText(s: string)
    requires HexDecode(s).Some? && IsLower(s)
    ensures IsHexText(s) && |s| == 2 * |HexDecode(s).value|
  {
    HexIsCanonical(s);
    HexEncodeIsHexText(HexDecode(s).value);
  }

  /** Where the digits of a canonical form come from. */
  lemma DashedDigits(hex: string)
    requires |hex| == 32
    ensures forall i :: 0 <= i < 36 && i != 8 && i != 13 && i != 18 && i != 23 ==> Dashed(hex)[i] in hex
    ensures Dashed(hex)[14] == hex[12] && Dashed(hex)[19] == hex[16] && HasDashes(Dashed(hex))
  {
  }

  /** Both sides accept the same canonical forms, and the printed compact form is the parsed one. */
  lemma SidesAgreeOnUuids(value: string)
    ensures MatchesPattern(value) <==> CanonicalToCompact(value).Some?
    ensures MatchesPattern(value) ==> CanonicalToCompact(value) == Some(CompactUuid(value))
  {
    if MatchesPattern(value) {
      PatternIsParsed(value);
    }
    if CanonicalToCompact(value).Some? {
      ParsedMatchesPattern(value);
    }
  }

  /** The version and the variant are decided by two digits. */
  lemma VersionDigits(hex: string)
    requires |hex| == 32 && IsHexText(hex)
    ensures HexDecode(hex).Some?
    ensures IsUuidV7(HexDecode(hex).value) <==>
              hex[12] == '7' && (hex[16] == '8' || hex[16] == '9' || hex[16] == 'a' || hex[16] == 'b')
  {
    HexDecodesDigits(hex);
    var bytes := HexDecode(hex).value;
    assert bytes[6] == 16 * HexValue(hex[2 * 6]).value + HexValue(hex[2 * 6 + 1]).value;
    assert bytes[8] == 16 * HexValue(hex[2 * 8]).value + HexValue(hex[2 * 8 + 1]).value;
    NibbleOf(hex[12], hex[13], bytes[6]);
    NibbleOf(hex[16], hex[17], bytes[8]);
  }

  lemma NibbleOf(high: char, low: char, byte: Byte)
    requires IsHexDigit(high) && IsHexDigit(low)
    requires byte == 16 * HexValue(high).value + HexValue(low).value
    ensures byte / 16 == 7 <==> high == '7'
    ensures byte / 64 == 2 <==> high == '8' || high == '9' || high == 'a' || high == 'b'
  {
    assert byte / 16 == HexValue(high).value;
    assert byte / 64 == HexValue(high).value / 4;
  }

  lemma ParsedMatchesPattern(value: string)
    requires CanonicalToCompact(value).Some?
    ensures MatchesPattern(value)
  {
    var plain := WithoutDashes(value);
    PlainIsLower(value);
    DecodedIsHexText(plain);
    VersionDigits(plain);
    DashUndashed(value);
    DashedMatches(plain);
  }

  lemma DashedMatches(hex: string)
    requires |hex| == 32 && IsHexText(hex)
    requires hex[12] == '7' && (hex[16] == '8' || hex[16] == '9' || hex[16] == 'a' || hex[16] == 'b')
    ensures MatchesPattern(Dashed(hex))
  {
    var value := Dashed(hex);
    DashedDigits(hex);
    forall i | 0 <= i < 36 && i != 8 && i != 13 && i != 18 && i != 23 ensures IsHexDigit(value[i]) {
      var k :| 0 <= k < |hex| && hex[k] == value[i];
    }
  }

  lemma PatternIsParsed(value: string)
    requires MatchesPattern(value)
    ensures CanonicalToCompact(value).Some?
  {
    var hex := value[0..8] + value[9..13] + value[14..18] + value[19..23] + value[24..36];
    assert forall i :: 0 <= i < 32 ==>
      hex[i] == value[if i < 8 then i else if i < 12 then i + 1 else if i < 16 then i + 2 else if i < 20 then i + 3
                      else i + 4];
    assert IsHexText(hex) && '-' !in hex;
    assert value == Dashed(hex);
    assert hex[12] == value[14] && hex[16] == value[19];
    UndashDashed(hex);
    VersionDigits(hex);
    DashedIsCanonical(hex);
  }

  // ---- Printing and parsing an assertion ----------------------------------------------------------------

  /** The keyed hash under the shared key. */
  type Mac = string -> seq<Byte>

  ghost predicate IsMac(mac: Mac) {
    forall payload: string :: |mac(payload)| == SIGNATURE_BYTES
  }

  datatype Principal = Principal(player: string, session: string, nonceKey: string, expiresAt: int)

  function Payload(player: string, session: string, expiresAt: int, nonce: seq<Byte>): string {
    Join([VERSION, CompactUuid(player), CompactUuid(session), Print36(expiresAt), Encode(nonce)])
  }

  /** The printing side; the clock counts milliseconds. */
  function Create(mac: Mac, player: string, session: string, nowMs: int, ttl: int, nonce: seq<Byte>)
    : Option<string>
  {
    if !MatchesPattern(player) || !MatchesPattern(session) || |nonce| != NONCE_BYTES then None
    else
      var payload := Payload(player, session, nowMs / 1000 + ttl, nonce);
      var assertion := payload + "." + Encode(mac(payload));
      if |assertion| > MAXIMUM_LENGTH then None else Some(assertion)
  }

  /** The parsing side; the clock counts seconds. */
  function Verify(mac: Mac, now: int, assertion: string): Option<Principal> {
    if |assertion| == 0 || |assertion| > MAXIMUM_LENGTH then None
    else
      var parts := Split(assertion);
      if |parts| != 6 || parts[0] != VERSION then None
      else VerifyParts(mac, now, parts[1], parts[2], parts[3], parts[4], parts[5], Join(parts[..5]))
  }

  function VerifyParts(mac: Mac, now: int, first: string, second: string, expiry: string, nonceText: string,
                       signatureText: string, payload: string)
    : Option<Principal>
  {
    var player, session := CompactToCanonical(first), CompactToCanonical(second);
    var expiresAt, nonce := Parse36(expiry), DecodeExact(nonceText);
    var signature := DecodeExact(signatureText);
    if player.None? || session.None? || expiresAt.None? then None
    else if expiresAt.value <= now || expiresAt.value > now + MAXIMUM_TTL then None
    else if nonce.None? || |nonce.value| != NONCE_BYTES then None
    else if signature.None? || |signature.value| != SIGNATURE_BYTES then None
    else if signature.value != mac(payload) then None
    else Some(Principal(player.value, session.value, HexEncode(nonce.value), expiresAt.value))
  }

  lemma Base64IsDotless(b: seq<Byte>)
    ensures IsDotless(Encode(b))
  {
    Base64RoundTrip(b);
    forall i | 0 <= i < |Encode(b)| ensures Encode(b)[i] != '.' {
    }
  }

  lemma Base36IsDotless(n: int)
    ensures IsDotless(Print36(n))
  {
    var digits := Digits36(if n < 0 then -n else n);
    Digits36RoundTrip(if n < 0 then -n else n);
    forall i | 0 <= i < |digits| ensures digits[i] != '.' {
      assert Value36(digits[i]).Some?;
    }
  }

  lemma CompactIsDotless(value: string)
    requires MatchesPattern(value)
    ensures IsDotless(CompactUuid(value))
  {
    SidesAgreeOnUuids(value);
    Base64IsDotless(HexDecode(WithoutDashes(value)).value);
  }

  /** A printed assertion splits into exactly the parts it was printed from. */
  lemma CreatedParts(mac: Mac, player: string, session: string, expiresAt: int, nonce: seq<Byte>)
    requires MatchesPattern(player) && MatchesPattern(session)
    ensures var payload := Payload(player, session, expiresAt, nonce);
            var first := [VERSION, CompactUuid(player), CompactUuid(session), Print36(expiresAt), Encode(nonce)];
            Split(payload + "." + Encode(mac(payload))) == first + [Encode(mac(payload))]
  {
    var payload := Payload(player, session, expiresAt, nonce);
    var c, d, signature := CompactUuid(player), CompactUuid(session), Encode(mac(payload));
    var first := [VERSION, c, d, Print36(expiresAt), Encode(nonce)];
    CompactIsDotless(player);
    CompactIsDotless(session);
    Base64IsDotless(nonce);
    Base64IsDotless(mac(payload));
    Base36IsDotless(expiresAt);
    JoinAppend(first, signature);
    SplitJoin(first + [signature]);
  }

  lemma {:induction false} JoinAppend(parts: seq<string>, last: string)
    requires parts != []
    ensures Join(parts + [last]) == Join(parts) + "." + last
  {
    if |parts| > 1 {
      assert (parts + [last])[1..] == parts[1..] + [last];
      JoinAppend(parts[1..], last);
      assert parts[0] + "." + (Join(parts[1..]) + "." + last) == parts[0] + "." + Join(parts[1..]) + "." + last;
    } else {
      assert (parts + [last])[1..] == [last];
    }
  }

  /**
   Codec agreement: whatever is printed is accepted in exactly the seconds before it expires and
   within the longest lifetime, and yields the very ids, nonce and expiry it was printed from.
   */
  lemma VerifyAcceptsCreated(mac: Mac, player: string, session: string, nowMs: int, ttl: int, nonce: seq<Byte>,
                             now: int)
    requires IsMac(mac) && Create(mac, player, session, nowMs, ttl, nonce).Some?
    requires -MAX_INT64 <= nowMs / 1000 + ttl <= MAX_INT64
    ensures var expiresAt := nowMs / 1000 + ttl;
            Verify(mac, now, Create(mac, player, session, nowMs, ttl, nonce).value)
              == if expiresAt - MAXIMUM_TTL <= now < expiresAt
                 then Some(Principal(player, session, HexEncode(nonce), expiresAt)) else None
  {
    var expiresAt := nowMs / 1000 + ttl;
    var payload := Payload(player, session, expiresAt, nonce);
    var assertion := payload + "." + Encode(mac(payload));
    var c, d := CompactUuid(player), CompactUuid(session);
    CreatedParts(mac, player, session, expiresAt, nonce);
    VerifySplits(mac, now, assertion, c, d, Print36(expiresAt), Encode(nonce), Encode(mac(payload)));
    PartsAreAccepted(mac, player, session, expiresAt, nonce, now);
  }

  lemma VerifySplits(mac: Mac, now: int, assertion: string, a: string, b: string, c: string, d: string, e: string)
    requires Split(assertion) == [VERSION, a, b, c, d] + [e] && 0 < |assertion| <= MAXIMUM_LENGTH
    ensures Verify(mac, now, assertion) == VerifyParts(mac, now, a, b, c, d, e, Join([VERSION, a, b, c, d]))
  {
    var parts := Split(assertion);
    assert parts[..5] == [VERSION, a, b, c, d];
  }

  lemma PartsAreAccepted(mac: Mac, player: string, session: string, expiresAt: int, nonce: seq<Byte>, now: int)
    requires IsMac(mac) && MatchesPattern(player) && MatchesPattern(session)
    requires |nonce| == NONCE_BYTES && -MAX_INT64 <= expiresAt <= MAX_INT64
    ensures var payload := Payload(player, session, expiresAt, nonce);
            VerifyParts(mac, now, CompactUuid(player), CompactUuid(session),
                        Print36(expiresAt), Encode(nonce), Encode(mac(payload)), payload)
              == if expiresAt - MAXIMUM_TTL <= now < expiresAt
                 then Some(Principal(player, session, HexEncode(nonce), expiresAt)) else None
  {
    SidesAgreeOnUuids(player);
    SidesAgreeOnUuids(session);
    CanonicalComesBack(player);
    CanonicalComesBack(session);
    Base36RoundTrip(expiresAt);
    Base64RoundTrip(nonce);
    Base64RoundTrip(mac(Payload(player, session, expiresAt, nonce)));
  }

  /** With a configured lifetime it is accepted at every second from creation until it expires. */
  lemma AcceptedUntilExpiry(mac: Mac, player: string, session: string, nowMs: int, ttl: int, nonce: seq<Byte>,
                            now: int)
    requires IsMac(mac) && Create(mac, player, session, nowMs, ttl, nonce).Some?
    requires 5 <= ttl <= 60 && 0 <= nowMs && nowMs / 1000 + ttl <= MAX_INT64
    requires nowMs / 1000 <= now < nowMs / 1000 + ttl
    ensures var p := Verify(mac, now, Create(mac, player, session, nowMs, ttl, nonce).value);
            p.Some? && p.value.player == player && p.value.session == session
  {
    VerifyAcceptsCreated(mac, player, session, nowMs, ttl, nonce, now);
  }

  /** The length is fixed but for the digits of the expiry, so printing fails only for absurd clocks. */
  lemma CreatesWithinTheLimit(mac: Mac, player: string, session: string, nowMs: int, ttl: int, nonce: seq<Byte>)
    requires IsMac(mac) && MatchesPattern(player) && MatchesPattern(session)
    requires |nonce| == NONCE_BYTES
    ensures Create(mac, player, session, nowMs, ttl, nonce).Some? <==> |Print36(nowMs / 1000 + ttl)| <= 12
  {
    var payload := Payload(player, session, nowMs / 1000 + ttl, nonce);
    SidesAgreeOnUuids(player);
    SidesAgreeOnUuids(session);
    EncodedLength(HexDecode(WithoutDashes(player)).value);
    EncodedLength(HexDecode(WithoutDashes(session)).value);
    EncodedLength(nonce);
    EncodedLength(mac(payload));
    var c, d, e, f := CompactUuid(player), CompactUuid(session),
                      Print36(nowMs / 1000 + ttl), Encode(nonce);
    JoinLength(VERSION, c, d, e, f);
  }

  lemma JoinLength(a: string, b: string, c: string, d: string, e: string)
    ensures |Join([a, b, c, d, e])| == |a| + |b| + |c| + |d| + |e| + 4
  {
    assert [a, b, c, d, e][1..] == [b, c, d, e];
    assert [b, c, d, e][1..] == [c, d, e] && [c, d, e][1..] == [d, e] && [d, e][1..] == [e];
    assert Join([d, e]) == d + "." + e;
    assert Join([c, d, e]) == c + "." + Join([d, e]);
  }

  /** Whatever is accepted carries the hash of its own payload, so its bytes were signed as they are. */
  lemma AcceptedIsSigned(mac: Mac, now: int, assertion: string)
    requires Verify(mac, now, assertion).Some?
    ensures var parts := Split(assertion);
            && |parts| == 6 && assertion == Join(parts[..5]) + "." + Encode(mac(Join(parts[..5])))
            && CanonicalToCompact(Verify(mac, now, assertion).value.player) == Some(parts[1])
            && CanonicalToCompact(Verify(mac, now, assertion).value.session) == Some(parts[2])
            && now < Verify(mac, now, assertion).value.expiresAt <= now + MAXIMUM_TTL
  {
    var parts := Split(assertion);
    JoinSplit(assertion);
    assert parts == parts[..5] + [parts[5]];
    JoinAppend(parts[..5], parts[5]);
    CompactComesBack(parts[1]);
    CompactComesBack(parts[2]);
  }

  // ---- What is accepted ---------------------------------------------------------------------------------

  /** The text is the version, both ids, an expiry and a nonce, and the hash of all that. */
  ghost predicate IsCarrier(mac: Mac, text: string, p: Principal, expiry: string, nonce: seq<Byte>) {
    && MatchesPattern(p.player) && MatchesPattern(p.session) && Parse36(expiry) == Some(p.expiresAt)
    && |nonce| == NONCE_BYTES && p.nonceKey == HexEncode(nonce)
    && var payload := Join([VERSION, CompactUuid(p.player), CompactUuid(p.session), expiry, Encode(nonce)]);
       text == payload + "." + Encode(mac(payload))
  }

  ghost predicate Carries(mac: Mac, text: string, p: Principal) {
    exists expiry, nonce :: IsCarrier(mac, text, p, expiry, nonce)
  }

  lemma {:induction false} NumberIsDotless(s: string)
    requires Number36(s).Some?
    ensures IsDotless(s)
  {
    if |s| > 1 {
      NumberIsDotless(s[..|s| - 1]);
    }
  }

  lemma ExpiryIsDotless(s: string)
    requires Parse36(s).Some?
    ensures IsDotless(s)
  {
    if s[0] == '-' || s[0] == '+' {
      NumberIsDotless(s[1..]);
      assert s == [s[0]] + s[1..];
    } else {
      NumberIsDotless(s);
    }
  }

  lemma CarrierIsVerified(mac: Mac, now: int, text: string, p: Principal, expiry: string, nonce: seq<Byte>)
    requires IsMac(mac) && IsCarrier(mac, text, p, expiry, nonce) && |text| <= MAXIMUM_LENGTH
    ensures Verify(mac, now, text) == if now < p.expiresAt <= now + MAXIMUM_TTL then Some(p) else None
  {
    var c, d := CompactUuid(p.player), CompactUuid(p.session);
    var first := [VERSION, c, d, expiry, Encode(nonce)];
    var signature := Encode(mac(Join(first)));
    CompactIsDotless(p.player);
    CompactIsDotless(p.session);
    ExpiryIsDotless(expiry);
    Base64IsDotless(nonce);
    Base64IsDotless(mac(Join(first)));
    JoinAppend(first, signature);
    SplitJoin(first + [signature]);
    VerifySplits(mac, now, text, c, d, expiry, Encode(nonce), signature);
    CarriedPartsAgree(mac, now, p, expiry, nonce);
  }

  lemma CarriedPartsAgree(mac: Mac, now: int, p: Principal, expiry: string, nonce: seq<Byte>)
    requires IsMac(mac) && MatchesPattern(p.player) && MatchesPattern(p.session)
    requires Parse36(expiry) == Some(p.expiresAt) && |nonce| == NONCE_BYTES && p.nonceKey == HexEncode(nonce)
    ensures var c, d := CompactUuid(p.player), CompactUuid(p.session);
            var payload := Join([VERSION, c, d, expiry, Encode(nonce)]);
            VerifyParts(mac, now, c, d, expiry, Encode(nonce), Encode(mac(payload)), payload)
              == if now < p.expiresAt <= now + MAXIMUM_TTL then Some(p) else None
  {
    SidesAgreeOnUuids(p.player);
    SidesAgreeOnUuids(p.session);
    CanonicalComesBack(p.player);
    CanonicalComesBack(p.session);
    Base64RoundTrip(nonce);
    Base64RoundTrip(mac(Join([VERSION, CompactUuid(p.player), CompactUuid(p.session), expiry, Encode(nonce)])));
  }

  lemma VerifiedParts(mac: Mac, now: int, text: string)
    requires Verify(mac, now, text).Some?
    ensures var p, parts := Verify(mac, now, text).value, Split(text);
            && |parts| == 6 && parts[0] == VERSION && Parse36(parts[3]) == Some(p.expiresAt)
            && DecodeExact(parts[4]).Some? && |DecodeExact(parts[4]).value| == NONCE_BYTES
            && p.nonceKey == HexEncode(DecodeExact(parts[4]).value) && Encode(DecodeExact(parts[4]).value) == parts[4]
  {
  }

  lemma FiveOf(parts: seq<string>, a: string, b: string, c: string, d: string, e: string)
    requires |parts| == 6 && parts[0] == a && parts[1] == b && parts[2] == c && parts[3] == d && parts[4] == e
    ensures parts[..5] == [a, b, c, d, e]
  {
  }

  lemma VerifiedIsCarrier(mac: Mac, now: int, text: string)
    requires Verify(mac, now, text).Some?
    ensures Carries(mac, text, Verify(mac, now, text).value)
  {
    var p, parts := Verify(mac, now, text).value, Split(text);
    AcceptedIsSigned(mac, now, text);
    VerifiedParts(mac, now, text);
    SidesAgreeOnUuids(p.player);
    SidesAgreeOnUuids(p.session);
    FiveOf(parts, VERSION, CompactUuid(p.player), CompactUuid(p.session), parts[3], parts[4]);
    assert IsCarrier(mac, text, p, parts[3], DecodeExact(parts[4]).value);
  }

  /**
   Exactly what is accepted, of all texts and at any time: those within the length limit that carry the
   principal under their own hash, in the seconds before its expiry and within the longest lifetime.
   */
  lemma VerifyIff(mac: Mac, now: int, text: string, p: Principal)
    requires IsMac(mac)
    ensures Verify(mac, now, text) == Some(p)
       <==> |text| <= MAXIMUM_LENGTH && now < p.expiresAt <= now + MAXIMUM_TTL && Carries(mac, text, p)
  {
    if Verify(mac, now, text) == Some(p) {
      VerifiedIsCarrier(mac, now, text);
      AcceptedIsSigned(mac, now, text);
    }
    if Carries(mac, text, p) && |text| <= MAXIMUM_LENGTH {
      var expiry, nonce :| IsCarrier(mac, text, p, expiry, nonce);
      CarrierIsVerified(mac, now, text, p, expiry, nonce);
    }
  }
}
