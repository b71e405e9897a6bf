/**
 * The GitHub webhook endpoint of the ingestion service: the configured signing secret, the
 * `X-Hub-Signature-256` check (an HMAC-SHA256 of the body, hex-encoded in lower case after a
 * `sha256=` prefix) and the fixed-order chain of early returns that binds a request to either an
 * HTTP result or the accepted event.
 */
module GithubWebhook {
  import opened Wrappers
  import opened Text

  type Byte = b: int | 0 <= b < 256
  type Bytes = seq<Byte>

  /** An HMAC-SHA256 value: 32 bytes. */
  type Digest = d: Bytes | |d| == 32 witness seq(32, _ => 0)

  /** HMAC-SHA256(key, message) (RFC 2104 over SHA-256); its inside is not part of this model. */
  type Mac = (Bytes, Bytes) -> Digest

  // ---------------------------------------------------------------------------------------------
  // UTF-8 (`Encoding.UTF8.GetBytes`) and its decoder
  // ---------------------------------------------------------------------------------------------

  /** The UTF-8 encoding of one Unicode scalar value: one to four bytes. */
  function Utf8Char(c: char): (r: Bytes)
    ensures 1 <= |r| <= 4
  {
    var n := c as int;
    if n < 0x80 then [n]
    else if n < 0x800 then [0xC0 + n / 0x40, 0x80 + n % 0x40]
    else if n < 0x1_0000 then [0xE0 + n / 0x1000, 0x80 + n / 0x40 % 0x40, 0x80 + n % 0x40]
    else [0xF0 + n / 0x4_0000, 0x80 + n / 0x1000 % 0x40, 0x80 + n / 0x40 % 0x40, 0x80 + n % 0x40]
  }

  /** `Encoding.UTF8.GetBytes`: the characters' encodings, in order. */
  function Utf8(s: string): (r: Bytes)
    ensures |r| >= |s|
  {
    if s == [] then [] else Utf8Char(s[0]) + Utf8(s[1..])
  }

  predicate IsContinuation(b: Byte) {
    0x80 <= b < 0xC0
  }

  /**
   * Decodes the character at the front of `b` and says how many bytes it took; `None` for an
   * ill-formed, overlong or surrogate sequence.
   */
  function DecodeFirst(b: Bytes): (r: Option<(char, nat)>)
    requires b != []
    ensures r.Some? ==> 1 <= r.value.1 <= |b|
  {
    var b0: int := b[0];
    if b0 < 0x80 then Some((b0 as char, 1))
    else if 0xC2 <= b0 < 0xE0 && |b| >= 2 && IsContinuation(b[1]) then
      Some((((b0 - 0xC0) * 0x40 + (b[1] as int - 0x80)) as char, 2))
    else if 0xE0 <= b0 < 0xF0 && |b| >= 3 && IsContinuation(b[1]) && IsContinuation(b[2]) then
      var n := (b0 - 0xE0) * 0x1000 + (b[1] as int - 0x80) * 0x40 + (b[2] as int - 0x80);
      if 0x800 <= n && !(0xD800 <= n < 0xE000) then Some((n as char, 3)) else None
    else if 0xF0 <= b0 < 0xF5 && |b| >= 4 && IsContinuation(b[1]) && IsContinuation(b[2])
            && IsContinuation(b[3]) then
      var n := (b0 - 0xF0) * 0x4_0000 + (b[1] as int - 0x80) * 0x1000 + (b[2] as int - 0x80) * 0x40
               + (b[3] as int - 0x80);
      if 0x1_0000 <= n < 0x11_0000 then Some((n as char, 4)) else None
    else None
  }

  /** Decodes well-formed UTF-8; `None` when any sequence in `b` is ill-formed. */
  function DecodeUtf8(b: Bytes): Option<string>
    decreases |b|
  {
    if b == [] then Some("")
    else
      match DecodeFirst(b)
      case None => None
      case Some((c, k)) =>
        match DecodeUtf8(b[k..])
        case None => None
        case Some(rest) => Some([c] + rest)
  }

  /** The decoder reads back exactly the one character `Utf8Char` wrote, whatever follows. */
  lemma DecodeFirstOfEncoded(c: char, rest: Bytes)
    ensures DecodeFirst(Utf8Char(c) + rest) == Some((c, |Utf8Char(c)|))
  {
    var n := c as int;
    var b := Utf8Char(c) + rest;
    if n < 0x80 {
    } else if n < 0x800 {
      assert b[..2] == Utf8Char(c);
      TwoByteSequence(n, b[0], b[1]);
    } else if n < 0x1_0000 {
      assert b[..3] == Utf8Char(c);
      ThreeByteSequence(n, b[0], b[1], b[2]);
    } else {
      assert b[..4] == Utf8Char(c);
      FourByteSequence(n, b[0], b[1], b[2], b[3]);
    }
  }

  lemma TwoByteSequence(n: int, b0: int, b1: int)
    requires 0x80 <= n < 0x800 && b0 == 0xC0 + n / 0x40 && b1 == 0x80 + n % 0x40
    ensures 0xC2 <= b0 < 0xE0 && 0x80 <= b1 < 0xC0 && (b0 - 0xC0) * 0x40 + (b1 - 0x80) == n
  {
  }

  lemma ThreeByteSequence(n: int, b0: int, b1: int, b2: int)
    requires 0x800 <= n < 0x1_0000
    requires b0 == 0xE0 + n / 0x1000 && b1 == 0x80 + n / 0x40 % 0x40 && b2 == 0x80 + n % 0x40
    ensures 0xE0 <= b0 < 0xF0 && 0x80 <= b1 < 0xC0 && 0x80 <= b2 < 0xC0
    ensures (b0 - 0xE0) * 0x1000 + (b1 - 0x80) * 0x40 + (b2 - 0x80) == n
  {
  }

  lemma FourByteSequence(n: int, b0: int, b1: int, b2: int, b3: int)
    requires 0x1_0000 <= n < 0x11_0000
    requires b0 == 0xF0 + n / 0x4_0000 && b1 == 0x80 + n / 0x1000 % 0x40
    requires b2 == 0x80 + n / 0x40 % 0x40 && b3 == 0x80 + n % 0x40
    ensures 0xF0 <= b0 < 0xF5 && 0x80 <= b1 < 0xC0 && 0x80 <= b2 < 0xC0 && 0x80 <= b3 < 0xC0
    ensures (b0 - 0xF0) * 0x4_0000 + (b1 - 0x80) * 0x1000 + (b2 - 0x80) * 0x40 + (b3 - 0x80) == n
  {
  }

  /** UTF-8 round trip: decoding the encoding of any string gives the string back. */
  lemma {:induction false} Utf8RoundTrip(s: string)
    ensures DecodeUtf8(Utf8(s)) == Some(s)
  {
    if s != [] {
      var head, rest := Utf8Char(s[0]), Utf8(s[1..]);
      DecodeFirstOfEncoded(s[0], rest);
      assert (head + rest)[|head|..] == rest;
      Utf8RoundTrip(s[1..]);
      assert [s[0]] + s[1..] == s;
    }
  }

  // ---------------------------------------------------------------------------------------------
  // Lower-case base16 (`Convert.ToHexStringLower`) and ASCII bytes (`Encoding.ASCII.GetBytes`)
  // ---------------------------------------------------------------------------------------------

  /** The base16 alphabet of section 8 of RFC 4648, in lower case. */
  const HexAlphabet: string := "0123456789abcdef"

  /** `Convert.ToHexStringLower`: two lower-case hex digits per byte, high nibble first. */
  function ToHexLower(b: Bytes): (r: string)
    ensures |r| == 2 * |b|
  {
    if b == [] then "" else [HexAlphabet[b[0] / 16], HexAlphabet[b[0] % 16]] + ToHexLower(b[1..])
  }

  /** The value of a lower-case hex digit; `None` for any other character, upper-case digits included. */
  function HexValue(c: char): (r: Option<nat>)
    ensures r.Some? ==> r.value < 16 && HexAlphabet[r.value] == c
    ensures r.None? ==> c !in HexAlphabet
  {
    if '0' <= c <= '9' then Some(c as int - '0' as int)
    else if 'a' <= c <= 'f' then Some(c as int - 'a' as int + 10)
    else None
  }

  /** Decodes lower-case base16; `None` for an odd length or a character outside the alphabet. */
  function FromHexLower(s: string): Option<Bytes>
    decreases |s|
  {
    if s == "" then Some([])
    else if |s| == 1 then None
    else
      match (HexValue(s[0]), HexValue(s[1]), FromHexLower(s[2..]))
      case (Some(hi), Some(lo), Some(rest)) => Some([hi * 16 + lo] + rest)
      case _ => None
  }

  /** Each digit of the alphabet decodes to its position. */
  lemma HexValueOfDigit(v: nat)
    requires v < 16
    ensures HexValue(HexAlphabet[v]) == Some(v)
  {
  }

  /** The two digits written for a byte decode back to it. */
  lemma HexPairOfByte(v: Byte)
    ensures HexValue(HexAlphabet[v / 16]) == Some(v / 16) && HexValue(HexAlphabet[v % 16]) == Some(v % 16)
    ensures v / 16 * 16 + v % 16 == v
  {
    HexValueOfDigit(v / 16);
    HexValueOfDigit(v % 16);
  }

  /** Hex round trip: decoding the lower-case hex of any bytes gives the bytes back. */
  lemma {:induction false} HexRoundTrip(b: Bytes)
    ensures FromHexLower(ToHexLower(b)) == Some(b)
  {
    if b != [] {
      var hi, lo, rest := HexAlphabet[b[0] / 16], HexAlphabet[b[0] % 16], ToHexLower(b[1..]);
      var s := [hi, lo] + rest;
      assert s == ToHexLower(b);
      assert s[0] == hi && s[1] == lo && s[2..] == rest;
      HexPairOfByte(b[0]);
      HexRoundTrip(b[1..]);
      assert [b[0]] + b[1..] == b;
    }
  }

  /** Every character of `ToHexLower(b)` is a lower-case hex digit, so none is an upper-case letter. */
  lemma {:induction false} HexLowerDigits(b: Bytes)
    ensures forall i :: 0 <= i < |ToHexLower(b)| ==> ToHexLower(b)[i] in HexAlphabet
    ensures forall i :: 0 <= i < |ToHexLower(b)| ==> !IsAsciiUpper(ToHexLower(b)[i])
  {
    if b != [] {
      HexLowerDigits(b[1..]);
      var s := ToHexLower(b);
      forall i | 2 <= i < |s| ensures s[i] == ToHexLower(b[1..])[i - 2] {
      }
    }
  }

  /** `Encoding.ASCII.GetBytes` on one character: its code if ASCII, otherwise `?` (0x3F). */
  function AsciiByte(c: char): Byte {
    if c as int < 0x80 then c as int else 0x3F
  }

  /** `Encoding.ASCII.GetBytes`: one byte per character. */
  function AsciiBytes(s: string): Bytes {
    seq(|s|, i requires 0 <= i < |s| => AsciiByte(s[i]))
  }

  /**
   * Two strings with the same ASCII bytes are equal when one of them is made of hex digits: a
   * non-ASCII character becomes `?`, which is not a hex digit.
   */
  lemma AsciiBytesOfHex(h: string, s: string)
    requires forall i :: 0 <= i < |h| ==> h[i] in HexAlphabet
    ensures AsciiBytes(h) == AsciiBytes(s) <==> h == s
  {
    if AsciiBytes(h) == AsciiBytes(s) {
      forall i | 0 <= i < |h| ensures h[i] == s[i] {
        assert AsciiBytes(h)[i] == AsciiBytes(s)[i];
      }
    }
  }

  /** `CryptographicOperations.FixedTimeEquals`: equal lengths, then equal bytes at every index. */
  predicate FixedTimeEquals(left: Bytes, right: Bytes) {
    |left| == |right| && forall i :: 0 <= i < |left| ==> left[i] == right[i]
  }

  /** The comparison is plain equality of the two byte sequences. */
  lemma FixedTimeEqualsIff(left: Bytes, right: Bytes)
    ensures FixedTimeEquals(left, right) <==> left == right
  {
  }

  // ---------------------------------------------------------------------------------------------
  // The signature check
  // ---------------------------------------------------------------------------------------------

  const SignaturePrefix: string := "sha256="

  /**
   * `VerifySignature`: the header must start with `sha256=` in any letter case, and the rest must
   * match, as ASCII bytes, the lower-case hex of HMAC-SHA256(secret, payload).
   */
  function VerifySignature(secret: Bytes, payload: Bytes, signatureHeader: string, hmac: Mac): (accepted: bool)
    ensures accepted ==> StartsWithIgnoreCase(signatureHeader, SignaturePrefix)
    ensures accepted ==> |signatureHeader| == |SignaturePrefix| + 2 * 32
  {
    if !StartsWithIgnoreCase(signatureHeader, SignaturePrefix) then false
    else
      var signature := signatureHeader[|SignaturePrefix|..];
      var hex := ToHexLower(hmac(secret, payload));
      FixedTimeEquals(AsciiBytes(hex), AsciiBytes(signature))
  }

  /**
   * A signature is accepted exactly when the header is `sha256=` (any letter case) followed by
   * exactly the lower-case hex of HMAC-SHA256(secret, payload).
   */
  lemma VerifySignatureIff(secret: Bytes, payload: Bytes, signatureHeader: string, hmac: Mac)
    ensures VerifySignature(secret, payload, signatureHeader, hmac)
            <==> StartsWithIgnoreCase(signatureHeader, SignaturePrefix)
                 && signatureHeader[|SignaturePrefix|..] == ToHexLower(hmac(secret, payload))
  {
    if StartsWithIgnoreCase(signatureHeader, SignaturePrefix) {
      var hex := ToHexLower(hmac(secret, payload));
      HexLowerDigits(hmac(secret, payload));
      AsciiBytesOfHex(hex, signatureHeader[|SignaturePrefix|..]);
    }
  }

  /**
   * An accepted header is 71 characters long (the prefix and 64 hex digits) and has no upper-case
   * letter after the prefix: upper-case hex and a wrong length are rejected.
   */
  lemma AcceptedSignatureShape(secret: Bytes, payload: Bytes, signatureHeader: string, hmac: Mac)
    requires VerifySignature(secret, payload, signatureHeader, hmac)
    ensures |signatureHeader| == 71
    ensures forall i :: |SignaturePrefix| <= i < |signatureHeader| ==> !IsAsciiUpper(signatureHeader[i])
  {
    VerifySignatureIff(secret, payload, signatureHeader, hmac);
    var hex := ToHexLower(hmac(secret, payload));
    HexLowerDigits(hmac(secret, payload));
    forall i | |SignaturePrefix| <= i < |signatureHeader|
      ensures !IsAsciiUpper(signatureHeader[i])
    {
      assert signatureHeader[i] == hex[i - |SignaturePrefix|];
    }
  }

  /** The header GitHub sends, with the prefix in any letter case, is accepted. */
  lemma GenuineSignatureAccepted(secret: Bytes, payload: Bytes, prefix: string, hmac: Mac)
    requires Lower(prefix) == SignaturePrefix
    ensures VerifySignature(secret, payload, prefix + ToHexLower(hmac(secret, payload)), hmac)
  {
    var header := prefix + ToHexLower(hmac(secret, payload));
    assert header[..|SignaturePrefix|] == prefix;
    assert header[|SignaturePrefix|..] == ToHexLower(hmac(secret, payload));
    VerifySignatureIff(secret, payload, header, hmac);
  }

  // ---------------------------------------------------------------------------------------------
  // The configured secret
  // ---------------------------------------------------------------------------------------------

  /** The characters `char.IsWhiteSpace` accepts (Unicode White_Space). */
  predicate IsDotNetWhiteSpace(c: char) {
    ('\t' <= c <= '\r') || c == ' ' || c == '\U{85}' || c == '\U{A0}' || c == '\U{1680}'
    || ('\U{2000}' <= c <= '\U{200A}') || c == '\U{2028}' || c == '\U{2029}' || c == '\U{202F}'
    || c == '\U{205F}' || c == '\U{3000}'
  }

  /** `string.IsNullOrWhiteSpace`; `None` is a missing configuration value (null). */
  predicate IsNullOrWhiteSpace(value: Option<string>) {
    value.None? || forall i :: 0 <= i < |value.value| ==> IsDotNetWhiteSpace(value.value[i])
  }

  /** The secret the signature is computed with: the UTF-8 bytes of the configured value. */
  datatype GithubWebhookSecret = GithubWebhookSecret(key: Bytes)

  const SecretNotSet: string := "GitHub:WebhookSecret configuration value is not set."

  /**
   * The `GithubWebhookSecret` constructor, given `configuration["GitHub:WebhookSecret"]`: it
   * throws (`Failure`) on a missing, empty or whitespace-only value, and otherwise keeps a
   * non-empty key that decodes back to the configured value.
   */
  function NewGithubWebhookSecret(configured: Option<string>): (r: Result<GithubWebhookSecret, string>)
    ensures r.Failure? <==> IsNullOrWhiteSpace(configured)
    ensures r.Failure? ==> r.error == SecretNotSet
    ensures r.Success? ==> r.value.key != [] && DecodeUtf8(r.value.key) == configured
  {
    if IsNullOrWhiteSpace(configured) then Failure(SecretNotSet)
    else
      Utf8RoundTrip(configured.value);
      Success(GithubWebhookSecret(Utf8(configured.value)))
  }

  // ---------------------------------------------------------------------------------------------
  // Binding a request
  // ---------------------------------------------------------------------------------------------

  /**
   * Request headers: each header name, in lower case (the header dictionary ignores case), mapped
   * to the values received for it.
   */
  type Headers = h: map<string, seq<string>> | forall name :: name in h ==> IsFoldedName(name)

  /** A header name as the dictionary keys it: no ASCII upper-case letter. */
  predicate IsFoldedName(name: string) {
    forall i :: 0 <= i < |name| ==> !IsAsciiUpper(name[i])
  }

  /** Folded names are exactly the names lower-casing leaves unchanged. */
  lemma IsFoldedNameIff(name: string)
    ensures IsFoldedName(name) <==> Lower(name) == name
  {
    if Lower(name) == name {
      forall i | 0 <= i < |name| ensures !IsAsciiUpper(name[i]) {
        assert Lower(name)[i] == name[i];
      }
    }
  }

  /** The values of a header that are not empty, in order. */
  function NonEmpty(values: seq<string>): (r: seq<string>)
    ensures forall i :: 0 <= i < |r| ==> r[i] != ""
    ensures r == [] <==> forall i :: 0 <= i < |values| ==> values[i] == ""
  {
    if values == [] then []
    else (if values[0] == "" then [] else [values[0]]) + NonEmpty(values[1..])
  }

  /**
   * `Headers.TryGetValue(key)` followed by `StringValues.ToString()`, for a key already in lower
   * case: a single value as it is, several values joined by `,` with the empty ones skipped.
   */
  function Lookup(headers: Headers, key: string): (r: Option<string>)
    ensures r.Some? <==> key in headers
    ensures r.Some? ==> (r.value == "" <==> forall i :: 0 <= i < |headers[key]| ==> headers[key][i] == "")
    ensures r.Some? && |headers[key]| == 1 ==> r.value == headers[key][0]
  {
    if key in headers then
      var values := headers[key];
      JoinEmpty(NonEmpty(values), ',');
      assert |values| == 1 ==> NonEmpty(values) == NonEmpty([values[0]]);
      Some(Join(NonEmpty(values), ','))
    else None
  }

  /** The keys of `X-GitHub-Event`, `X-GitHub-Delivery` and `X-Hub-Signature-256`. */
  const EventKey: string := "x-github-event"
  const DeliveryKey: string := "x-github-delivery"
  const SignatureKey: string := "x-hub-signature-256"

  /** The header names `BindAsync` asks for. */
  const EventHeader: string := "X-GitHub-Event"
  const DeliveryHeader: string := "X-GitHub-Delivery"
  const SignatureHeader: string := "X-Hub-Signature-256"

  /** The three keys are those header names folded to lower case. */
  lemma HeaderKeys()
    ensures Lower(EventHeader) == EventKey
    ensures Lower(DeliveryHeader) == DeliveryKey
    ensures Lower(SignatureHeader) == SignatureKey
  {
    NamesFold(EventHeader, DeliveryHeader, SignatureHeader);
  }

  lemma NamesFold(event: string, delivery: string, signature: string)
    requires event == "X-GitHub-Event" && delivery == "X-GitHub-Delivery"
    requires signature == "X-Hub-Signature-256"
    ensures Lower(event) == EventKey && Lower(delivery) == DeliveryKey && Lower(signature) == SignatureKey
  {
    FoldsTo(event, EventKey);
    FoldsTo(delivery, DeliveryKey);
    FoldsTo(signature, SignatureKey);
  }

  lemma FoldsTo(name: string, key: string)
    requires |name| == |key| && forall i :: 0 <= i < |name| ==> LowerChar(name[i]) == key[i]
    ensures Lower(name) == key
  {
  }

  const MissingEvent: string := "Missing X-GitHub-Event header"
  const MissingDelivery: string := "Missing X-GitHub-Delivery header"
  const MissingSignature: string := "Missing signature header"

  /** The HTTP results the binder can produce. */
  datatype HttpResult =
    | BadRequest(message: string)
    | Unauthorized
    | Ok(message: string, deliveryId: string)

  /** `GithubWebHookEventData`: an accepted event. */
  datatype EventData = EventData(eventName: string, deliveryId: string, payloadBytes: Bytes)

  /** `GithubWebHook`: either the event data or the result to send back. */
  datatype GithubWebHook = GithubWebHook(eventData: Option<EventData>, result: Option<HttpResult>)

  function Respond(result: HttpResult): GithubWebHook {
    GithubWebHook(None, Some(result))
  }

  /**
   * `BindAsync` with the buffered body as `payload`: the event header, then the delivery header,
   * then the signature header, then the signature, then the `ping` test; every outcome sets
   * exactly one of the event data and the result.
   */
  function Bind(headers: Headers, payload: Bytes, secret: GithubWebhookSecret, hmac: Mac): (hook: GithubWebHook)
    ensures hook.eventData.Some? != hook.result.Some?
  {
    match Lookup(headers, EventKey)
    case None => Respond(BadRequest(MissingEvent))
    case Some(eventName) =>
      match Lookup(headers, DeliveryKey)
      case None => Respond(BadRequest(MissingDelivery))
      case Some(deliveryId) =>
        var signature := Lookup(headers, SignatureKey);
        if signature.None? || signature.value == "" then Respond(BadRequest(MissingSignature))
        else if !VerifySignature(secret.key, payload, signature.value, hmac) then Respond(Unauthorized)
        else if EqualsIgnoreCase(eventName, "ping") then Respond(Ok("pong", deliveryId))
        else GithubWebHook(Some(EventData(eventName, deliveryId, payload)), None)
  }

  /** A missing event header is reported before anything else is looked at. */
  lemma MissingEventFirst(headers: Headers, payload: Bytes, secret: GithubWebhookSecret, hmac: Mac)
    requires Lookup(headers, EventKey).None?
    ensures Bind(headers, payload, secret, hmac) == Respond(BadRequest(MissingEvent))
  {
  }

  /** With the event header present, a missing delivery header is reported next. */
  lemma MissingDeliverySecond(headers: Headers, payload: Bytes, secret: GithubWebhookSecret, hmac: Mac)
    requires Lookup(headers, EventKey).Some? && Lookup(headers, DeliveryKey).None?
    ensures Bind(headers, payload, secret, hmac) == Respond(BadRequest(MissingDelivery))
  {
  }

  /** With both headers present, an absent or empty signature header is a bad request. */
  lemma MissingSignatureThird(headers: Headers, payload: Bytes, secret: GithubWebhookSecret, hmac: Mac)
    requires Lookup(headers, EventKey).Some? && Lookup(headers, DeliveryKey).Some?
    requires Lookup(headers, SignatureKey) in {None, Some("")}
    ensures Bind(headers, payload, secret, hmac) == Respond(BadRequest(MissingSignature))
  {
  }

  /**
   * A signature header whose values are all empty is reported missing: the joined value skips
   * empty values, so two empty values do not make the non-empty string ",".
   */
  lemma EmptySignatureValuesMissing(headers: Headers, payload: Bytes, secret: GithubWebhookSecret, hmac: Mac)
    requires EventKey in headers && DeliveryKey in headers && SignatureKey in headers
    requires forall i :: 0 <= i < |headers[SignatureKey]| ==> headers[SignatureKey][i] == ""
    ensures Bind(headers, payload, secret, hmac) == Respond(BadRequest(MissingSignature))
  {
    MissingSignatureThird(headers, payload, secret, hmac);
  }

  /** The request is a bad request exactly when one of the three headers is missing (or empty). */
  lemma BadRequestIff(headers: Headers, payload: Bytes, secret: GithubWebhookSecret, hmac: Mac)
    ensures var r := Bind(headers, payload, secret, hmac).result;
            r.Some? && r.value.BadRequest?
            <==> EventKey !in headers || DeliveryKey !in headers
                 || Lookup(headers, SignatureKey) in {None, Some("")}
  {
  }

  /**
   * A signature that does not verify gives Unauthorized, whatever the event name: a badly
   * signed `ping` never gets "pong".
   */
  lemma BadSignatureUnauthorized(headers: Headers, payload: Bytes, secret: GithubWebhookSecret, hmac: Mac)
    requires Lookup(headers, EventKey).Some? && Lookup(headers, DeliveryKey).Some?
    requires Lookup(headers, SignatureKey).Some? && Lookup(headers, SignatureKey).value != ""
    requires !VerifySignature(secret.key, payload, Lookup(headers, SignatureKey).value, hmac)
    ensures Bind(headers, payload, secret, hmac) == Respond(Unauthorized)
  {
  }

  /** A verified `ping`, in any letter case, is answered with "pong" and the delivery id. */
  lemma PingAnsweredWithPong(headers: Headers, payload: Bytes, secret: GithubWebhookSecret, hmac: Mac)
    requires Lookup(headers, EventKey).Some? && Lookup(headers, DeliveryKey).Some?
    requires Lookup(headers, SignatureKey).Some? && Lookup(headers, SignatureKey).value != ""
    requires VerifySignature(secret.key, payload, Lookup(headers, SignatureKey).value, hmac)
    requires Lower(Lookup(headers, EventKey).value) == "ping"
    ensures Bind(headers, payload, secret, hmac)
            == Respond(Ok("pong", Lookup(headers, DeliveryKey).value))
  {
  }

  /**
   * An event is accepted exactly when all three headers are there, the signature verifies and
   * the event is not `ping`; it then carries the header values and the whole payload.
   */
  lemma AcceptedIff(headers: Headers, payload: Bytes, secret: GithubWebhookSecret, hmac: Mac)
    ensures var hook := Bind(headers, payload, secret, hmac);
            hook.eventData.Some?
            <==> && Lookup(headers, EventKey).Some?
                 && Lookup(headers, DeliveryKey).Some?
                 && Lookup(headers, SignatureKey).Some?
                 && Lookup(headers, SignatureKey).value != ""
                 && VerifySignature(secret.key, payload, Lookup(headers, SignatureKey).value, hmac)
                 && !EqualsIgnoreCase(Lookup(headers, EventKey).value, "ping")
    ensures var hook := Bind(headers, payload, secret, hmac);
            hook.eventData.Some? ==>
              hook.eventData.value == EventData(Lookup(headers, EventKey).value,
                                                Lookup(headers, DeliveryKey).value, payload)
  {
  }

  /**
   * Every accepted event is authentic: its signature header is `sha256=` (any letter case)
   * followed by the lower-case hex of HMAC-SHA256 of its payload under the secret key.
   */
  lemma AcceptedIsAuthentic(headers: Headers, payload: Bytes, secret: GithubWebhookSecret, hmac: Mac)
    requires Bind(headers, payload, secret, hmac).eventData.Some?
    ensures var sig := Lookup(headers, SignatureKey);
            && sig.Some?
            && StartsWithIgnoreCase(sig.value, SignaturePrefix)
            && sig.value[|SignaturePrefix|..]
               == ToHexLower(hmac(secret.key, Bind(headers, payload, secret, hmac).eventData.value.payloadBytes))
  {
    var sig := Lookup(headers, SignatureKey);
    VerifySignatureIff(secret.key, payload, sig.value, hmac);
  }
}
