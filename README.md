# aspire-demos core, modelled in Dafny

This project models three small pieces of logic from the aspire-demos repository and proves
properties about them.

- **Connection-string parsing** (`ghmodel/backend/connectionString.js`). The value of
  `ConnectionStrings__<name>` has the form `Endpoint=...;Key=...;Model=...`. It is split on `;`.
  Segments that are blank after trimming are dropped. Each remaining segment is cut at its first `=`,
  and both halves are trimmed. A pair whose halves are both non-empty is stored under the
  lower-cased key, and a later segment overwrites an earlier one. A validation error is recorded
  for each of `endpoint`, `key` and `model` that is missing. With `throwOnError`, any error
  becomes an exception whose message joins the errors with newlines.
  - Module `ConnectionString` holds `ParseConnectionString`. It is a method whose loop fills the
    map. It is proved equal to the specification function `Parsed`, combined with `Outcome` for the
    throwing path.
- **GitHub webhook binding** (`webhooks/IngestionService/GithubWebhook.cs`).
  - The webhook secret is read from configuration and refused when it is null or white space.
    Otherwise it is encoded as UTF-8.
  - `BindAsync` checks the `X-GitHub-Event`, `X-GitHub-Delivery` and `X-Hub-Signature-256` headers
    in that order. It then verifies the HMAC-SHA256 signature, answers a `ping` event with `pong`,
    and otherwise hands the event on.
  - `VerifySignature` requires a `sha256=` prefix in any letter case. It compares the rest,
    byte for byte, with the lower-case hex digest of the payload.
  - Module `GithubWebhook` models these as pure functions. UTF-8 encoding and lower-case hex
    encoding each come with a decoder and a round-trip proof. The ASCII byte conversion is lossy
    (non-ASCII characters become `?`); what is proved about it is that it never makes a string
    match hex text unless the two are equal.
- **Weather emoji** (`vite-api/frontend/src/utils/weatherIcons.ts`).
  - The summary is lower-cased, with null treated as empty.
  - At or below 0 °C, only snow, freezing or ice words matter. At or above 32 °C, only scorching
    or sweltering words matter.
  - In between, the first matching keyword group picks the icon. Without a keyword, a temperature
    band picks it.
  - Module `WeatherIcons` gives each emoji its own constructor of the datatype `Emoji`.

Shared modules:
- `Text` holds ASCII case folding, substring search, and splitting/joining on one separator,
  with both round trips.
- `Wrappers` holds `Option` and `Result`.

## Model

| member | source | states |
|---|---|---|
| ConnectionString.ParseConnectionString | ghmodel/backend/connectionString.js:6-36 | the loop-based parser returns exactly the specification outcome `Outcome(Parsed(name, env), throwOnError)` for every environment value and flag |
| ConnectionString.MissingValue | ghmodel/backend/connectionString.js:10-14 | a missing or empty variable yields an invalid result with no fields and a single error that names `ConnectionStrings__<name>` |
| ConnectionString.TrimSpec | ghmodel/backend/connectionString.js:16-22 | trimming leaves the empty string exactly when the input is all JavaScript white space, which is the test the filter drops segments by; otherwise the result starts and ends with non-white characters and is the input with only white space removed at both ends |
| ConnectionString.TrimStartIndexSpec | ghmodel/backend/connectionString.js:21-22 | the start of a trimmed string is the first non-white character; everything before it is white |
| ConnectionString.TrimEndIndexSpec | ghmodel/backend/connectionString.js:21-22 | the end of a trimmed string is just after the last non-white character; everything after it is white |
| ConnectionString.TrimIdempotent | ghmodel/backend/connectionString.js:21-22 | trimming twice equals trimming once |
| ConnectionString.TrimOfTrimmed | ghmodel/backend/connectionString.js:21-22 | a string with no white space at either end is left unchanged by trimming |
| ConnectionString.NonBlankSpec | ghmodel/backend/connectionString.js:16 | the filtered segments are non-blank, every non-blank segment survives, and no segment is invented |
| ConnectionString.NonBlankKeepsAll | ghmodel/backend/connectionString.js:16 | filtering a list of non-blank segments returns it unchanged |
| ConnectionString.BlankSegmentsIgnored | ghmodel/backend/connectionString.js:16-26 | dropping blank segments first does not change the resulting map, because blank segments never store a pair |
| ConnectionString.BlankHasNoPair | ghmodel/backend/connectionString.js:16-23 | a blank segment contributes no pair |
| ConnectionString.Trim | ghmodel/backend/connectionString.js:21-22 | trimming never lengthens a string; TrimSpec, TrimIdempotent and TrimOfTrimmed characterise the result |
| ConnectionString.NonBlank | ghmodel/backend/connectionString.js:16 | the filter never lengthens the list; NonBlankSpec and BlankSegmentsIgnored state what it keeps |
| ConnectionString.IndexOf | ghmodel/backend/connectionString.js:19 | returns the first position of the character, and nothing exactly when the character is absent |
| ConnectionString.IndexOfAfterPrefix | ghmodel/backend/connectionString.js:19 | in `a=b` with no `=` in `a`, the first `=` is at position `|a|` |
| ConnectionString.NoEqualsNoPair | ghmodel/backend/connectionString.js:19-20 | a segment without `=` is skipped |
| ConnectionString.SegmentSplitsAtFirstEquals | ghmodel/backend/connectionString.js:19-25 | `a=b` with no `=` in `a` stores the lower-cased trimmed `a` with the trimmed `b` (which may itself contain `=`), exactly when both are non-empty |
| ConnectionString.SegmentPairShape | ghmodel/backend/connectionString.js:21-24 | every stored pair has a non-empty lower-case key and a non-empty value with no surrounding white space |
| ConnectionString.SegmentPair | ghmodel/backend/connectionString.js:19-25 | the pair one segment stores, if any; NoEqualsNoPair, SegmentSplitsAtFirstEquals and SegmentPairShape characterise it |
| ConnectionString.Collect | ghmodel/backend/connectionString.js:17-26 | the object the loop fills, folded left to right; PresentIffSet and LastDefinitionWins characterise it |
| ConnectionString.PairsMap | ghmodel/backend/connectionString.js:17-26 | the map built from a list of segments; PairsMapEntries and BlankSegmentsIgnored characterise it |
| ConnectionString.PresentIffSet | ghmodel/backend/connectionString.js:17-26 | a key is in the map exactly when some segment stores a pair under that key |
| ConnectionString.LastDefinitionWins | ghmodel/backend/connectionString.js:18-25 | the value stored under a key comes from the last segment that sets that key |
| ConnectionString.PairsMapEntries | ghmodel/backend/connectionString.js:21-29 | all map keys are non-empty and lower case; all values are non-empty and trimmed |
| ConnectionString.Parsed | ghmodel/backend/connectionString.js:7-33 | the returned object is valid exactly when its error list is empty, and a valid object has all three fields |
| ConnectionString.Lookup | ghmodel/backend/connectionString.js:27-29 | reading a property of the filled object: undefined when the key was never set; PresentIffSet and LastDefinitionWins say when it is set and to what |
| ConnectionString.Falsy | ghmodel/backend/connectionString.js:30-32 | JavaScript falsiness of a field (undefined or the empty string); ErrorsListMissingFields and MissingErrorsOfStored show that for stored fields it reduces to absence |
| ConnectionString.MissingErrors | ghmodel/backend/connectionString.js:30-32 | at most three errors, and none exactly when no field is falsy |
| ConnectionString.Outcome | ghmodel/backend/connectionString.js:13-35 | throw or return for a given result; ThrowOnErrorIffInvalid and ThrowOnErrorJoinsMessages characterise it |
| ConnectionString.ValidMeansAllFields | ghmodel/backend/connectionString.js:27-33 | the result is valid exactly when endpoint, key and model are all present |
| ConnectionString.ErrorsListMissingFields | ghmodel/backend/connectionString.js:30-33 | for a non-empty value, the errors are the missing-endpoint, missing-key and missing-model messages, in that order, for exactly the absent fields; validity means no errors |
| ConnectionString.MissingErrorsOfStored | ghmodel/backend/connectionString.js:30-32 | for fields that are absent or non-empty, an error is raised exactly for the absent ones, in field order |
| ConnectionString.ErrorsHaveNoNewline | ghmodel/backend/connectionString.js:11-32 | no error message contains a newline (given a name without one) |
| ConnectionString.ThrowOnErrorIffInvalid | ghmodel/backend/connectionString.js:13-35 | for every name, with `throwOnError` the call throws exactly when the result is invalid and otherwise returns it; without the flag it always returns the result |
| ConnectionString.ThrowOnErrorJoinsMessages | ghmodel/backend/connectionString.js:13-35 | when the name holds no newline, splitting the thrown message on newlines gives back the error list |
| ConnectionString.KeySegment | ghmodel/backend/connectionString.js:19-24 | a segment `K=v` whose key folds to a lower-case word and whose value is trimmed stores exactly that word and value |
| ConnectionString.ThreeSegmentsMap | ghmodel/backend/connectionString.js:16-26 | three segments without `;` that each store a pair, joined by `;`, produce the map of those three pairs in order |
| ConnectionString.ParsedFromFields | ghmodel/backend/connectionString.js:27-33 | a map holding exactly endpoint, key and model gives a valid result with those values and no errors |
| ConnectionString.RoundTripMap | ghmodel/backend/connectionString.js:16-26 | formatting `Endpoint=e;Key=k;Model=m` (keys in any letter case) and splitting it gives back the map of the three fields |
| ConnectionString.RoundTrip | ghmodel/backend/connectionString.js:6-36 | parsing a formatted connection string gives back its endpoint, key and model, valid and with no errors |
| Text.Join | ghmodel/backend/connectionString.js:13 | joining with a separator; JoinSplit and SplitJoin make it the inverse of splitting |
| Text.Split | ghmodel/backend/connectionString.js:16 | splitting gives at least one part, and no part contains the separator |
| Text.JoinSplit | ghmodel/backend/connectionString.js:16 | joining the parts of a split with the separator gives back the string |
| Text.SplitJoin | ghmodel/backend/connectionString.js:16 | splitting a join of separator-free parts gives back the parts |
| Text.Lower | ghmodel/backend/connectionString.js:24 | lower-casing keeps the length, maps each character by ASCII folding, and leaves no upper-case letter |
| Text.LowerIdempotent | vite-api/frontend/src/utils/weatherIcons.ts:3 | lower-casing twice equals lower-casing once |
| Text.Contains | vite-api/frontend/src/utils/weatherIcons.ts:7-23 | substring search answers true exactly when the word occurs at some position |
| Text.EqualsIgnoreCase | webhooks/IngestionService/GithubWebhook.cs:74 | ordinal comparison ignoring case, as equality after ASCII lower-casing; IgnoresCase, PingAnsweredWithPong and AcceptedIff use it |
| Text.StartsWithIgnoreCase | webhooks/IngestionService/GithubWebhook.cs:96 | a prefix test ignoring case; VerifySignatureIff and GenuineSignatureAccepted state what it accepts |
| GithubWebhook.NewGithubWebhookSecret | webhooks/IngestionService/GithubWebhook.cs:9-18 | the secret is refused with the "not set" message exactly when the value is null or white space; otherwise the key is non-empty and decodes as UTF-8 back to the configured text |
| GithubWebhook.IsNullOrWhiteSpace | webhooks/IngestionService/GithubWebhook.cs:12 | a missing value or one made only of .NET white space; NewGithubWebhookSecret refuses exactly these |
| GithubWebhook.Utf8 | webhooks/IngestionService/GithubWebhook.cs:17 | UTF-8 encoding gives at least one byte per character; Utf8RoundTrip makes it invertible |
| GithubWebhook.Utf8RoundTrip | webhooks/IngestionService/GithubWebhook.cs:17 | decoding the UTF-8 encoding of any string gives back the string |
| GithubWebhook.DecodeFirstOfEncoded | webhooks/IngestionService/GithubWebhook.cs:17 | the decoder reads one encoded character back whole, whatever follows it |
| GithubWebhook.Utf8Char | webhooks/IngestionService/GithubWebhook.cs:17 | each character encodes to one to four bytes |
| GithubWebhook.HexRoundTrip | webhooks/IngestionService/GithubWebhook.cs:102 | decoding the lower-case hex of any byte string gives back the bytes |
| GithubWebhook.ToHexLower | webhooks/IngestionService/GithubWebhook.cs:102 | the hex text has two characters per byte |
| GithubWebhook.HexLowerDigits | webhooks/IngestionService/GithubWebhook.cs:102 | the hex text uses only `0-9a-f`, so it has no upper-case letter |
| GithubWebhook.HexValue | webhooks/IngestionService/GithubWebhook.cs:102 | a hex digit's value indexes back to that digit, and a non-digit has no value |
| GithubWebhook.AsciiBytes | webhooks/IngestionService/GithubWebhook.cs:103 | one byte per character, `?` for non-ASCII; AsciiBytesOfHex states when two results agree |
| GithubWebhook.AsciiBytesOfHex | webhooks/IngestionService/GithubWebhook.cs:103 | for hex text, the ASCII bytes of the two sides agree exactly when the strings are equal, even though non-ASCII characters collapse to `?` |
| GithubWebhook.FixedTimeEquals | webhooks/IngestionService/GithubWebhook.cs:103 | same length and the same byte at every index; FixedTimeEqualsIff makes it sequence equality |
| GithubWebhook.FixedTimeEqualsIff | webhooks/IngestionService/GithubWebhook.cs:103 | the fixed-time comparison holds exactly when both byte strings are equal |
| GithubWebhook.VerifySignature | webhooks/IngestionService/GithubWebhook.cs:93-104 | an accepted header starts with `sha256=` in any letter case and is 71 characters long; VerifySignatureIff gives the exact condition |
| GithubWebhook.VerifySignatureIff | webhooks/IngestionService/GithubWebhook.cs:93-104 | a signature is accepted exactly when it starts with `sha256=` in any letter case and the rest equals the lower-case hex HMAC of the payload under the secret |
| GithubWebhook.AcceptedSignatureShape | webhooks/IngestionService/GithubWebhook.cs:95-103 | an accepted header is 71 characters long and its digest part contains no upper-case letter |
| GithubWebhook.GenuineSignatureAccepted | webhooks/IngestionService/GithubWebhook.cs:95-103 | any spelling of the prefix followed by the true lower-case digest is accepted |
| GithubWebhook.IsFoldedNameIff | webhooks/IngestionService/GithubWebhook.cs:41-55 | a header key has no upper-case letter exactly when lower-casing leaves it unchanged, so the header map is keyed by folded names |
| GithubWebhook.NonEmpty | webhooks/IngestionService/GithubWebhook.cs:46-55 | keeps the non-empty values of a header: every kept value is non-empty, and none is kept exactly when every value is empty |
| GithubWebhook.Lookup | webhooks/IngestionService/GithubWebhook.cs:41-55 | a header yields a value exactly when it is present; that value is empty exactly when every received value is empty, and a single value is passed through unchanged |
| GithubWebhook.HeaderKeys | webhooks/IngestionService/GithubWebhook.cs:41-55 | `X-GitHub-Event`, `X-GitHub-Delivery` and `X-Hub-Signature-256` lower-case to the keys the binder looks up |
| GithubWebhook.Bind | webhooks/IngestionService/GithubWebhook.cs:33-91 | the bound webhook carries exactly one of event data and an HTTP result |
| GithubWebhook.MissingEventFirst | webhooks/IngestionService/GithubWebhook.cs:41-44 | without the event header the answer is a Bad Request naming that header, whatever else is sent |
| GithubWebhook.MissingDeliverySecond | webhooks/IngestionService/GithubWebhook.cs:48-51 | with the event header present and the delivery header absent, the answer is a Bad Request naming the delivery header |
| GithubWebhook.MissingSignatureThird | webhooks/IngestionService/GithubWebhook.cs:55-61 | with both id headers present and the signature header absent or empty, the answer is a Bad Request for the missing signature |
| GithubWebhook.EmptySignatureValuesMissing | webhooks/IngestionService/GithubWebhook.cs:55-61 | a signature header received only with empty values is answered as a missing signature, not checked as the string `,` |
| GithubWebhook.BadRequestIff | webhooks/IngestionService/GithubWebhook.cs:41-61 | the answer is a Bad Request exactly when one of the three headers is missing, or the signature is empty |
| GithubWebhook.BadSignatureUnauthorized | webhooks/IngestionService/GithubWebhook.cs:68-72 | a complete request whose signature fails verification is answered 401 Unauthorized |
| GithubWebhook.PingAnsweredWithPong | webhooks/IngestionService/GithubWebhook.cs:74-78 | a verified `ping` event in any letter case is answered 200 with `pong` and the delivery id |
| GithubWebhook.AcceptedIff | webhooks/IngestionService/GithubWebhook.cs:41-90 | event data is produced exactly when all headers are present, the signature is non-empty and verifies, and the event is not `ping`; the data holds the event name, delivery id and the payload |
| GithubWebhook.AcceptedIsAuthentic | webhooks/IngestionService/GithubWebhook.cs:68-90 | a delivered event always came with a `sha256=` signature equal to the HMAC of its payload |
| WeatherIcons.WeatherEmoji | vite-api/frontend/src/utils/weatherIcons.ts:2-30 | at or below 0 the icon is a snowflake or a cold face; at or above 32, fire or a hot face; in between, never one of the faces |
| WeatherIcons.KeywordEmoji | vite-api/frontend/src/utils/weatherIcons.ts:16-23 | a keyword match picks one of the eight keyword icons |
| WeatherIcons.BandEmoji | vite-api/frontend/src/utils/weatherIcons.ts:26-29 | the fallback is one of the four temperature-band icons |
| WeatherIcons.Normalized | vite-api/frontend/src/utils/weatherIcons.ts:3 | a null summary becomes the empty string, and the result has no upper-case letter |
| WeatherIcons.NullIsEmpty | vite-api/frontend/src/utils/weatherIcons.ts:3 | a null summary is treated as the empty summary |
| WeatherIcons.IgnoresCase | vite-api/frontend/src/utils/weatherIcons.ts:3 | summaries that differ only in letter case get the same icon |
| WeatherIcons.FreezingOverride | vite-api/frontend/src/utils/weatherIcons.ts:6-9 | at or below 0 the icon is the snowflake exactly when the summary mentions snow, freez or ice |
| WeatherIcons.HeatOverride | vite-api/frontend/src/utils/weatherIcons.ts:10-13 | at or above 32 the icon is fire exactly when the summary mentions scorch or swelter |
| WeatherIcons.NoKeywordIff | vite-api/frontend/src/utils/weatherIcons.ts:16-23 | no keyword icon is chosen exactly when none of the thirteen keywords occurs |
| WeatherIcons.FirstKeywordWins | vite-api/frontend/src/utils/weatherIcons.ts:16-23 | between the extremes, each keyword icon is chosen exactly when its group matches and no earlier group does |
| WeatherIcons.ThunderBeatsRain | vite-api/frontend/src/utils/weatherIcons.ts:16-17 | a summary with both thunder and rain gets the storm icon |
| WeatherIcons.TemperatureBands | vite-api/frontend/src/utils/weatherIcons.ts:26-29 | without keywords the bands are below 10, 10 to 19, 20 to 27, and 28 or more |
| WeatherIcons.OnlyKeywordsMatter | vite-api/frontend/src/utils/weatherIcons.ts:3-29 | two summaries that contain the same keywords get the same icon at every temperature |
| WeatherIcons.SwelterOnlyWhenHot | vite-api/frontend/src/utils/weatherIcons.ts:10-23 | below 32, `swelter` has no effect on the icon |
| WeatherIcons.SnowAndIceOnlyWhenFreezing | vite-api/frontend/src/utils/weatherIcons.ts:6-23 | above 0, `snow` and `ice` have no effect on the icon |

## Left out

- Reading `process.env` is not modelled. The variable's value is a parameter of `ParseConnectionString`: `None` when it is undefined.
- JavaScript plain-object quirks are not modelled, such as a `__proto__` key. The map is a Dafny `map`; the three keys read back are unaffected.
- Text.Lower, Text.EqualsIgnoreCase and Text.StartsWithIgnoreCase: case folding is ASCII only, standing in for JavaScript `toLowerCase` and .NET `OrdinalIgnoreCase`. Non-ASCII case mappings are not modelled. For example, JavaScript lower-cases U+212A KELVIN SIGN to `k`, so the segment `\u212AEY=v` stores `v` under `key` in the source; the model stores it under a different key and reports the key as missing. For the weather keywords the ASCII folding is exact: no non-ASCII character lower-cases into one of them.
- JavaScript and .NET strings are UTF-16 code units. Here a string is a sequence of Unicode scalar values, so lone surrogates cannot occur.
- GithubWebhook.Byte is an integer subtype in 0..255 rather than `bv8`, so byte arithmetic stays in plain integers.
- Dependency injection, `ILoggerFactory` logging and the `async` body copy are not modelled. The request body is a byte-sequence parameter, and resetting `Request.Body` has no observable effect in the model.
- GithubWebhook.Bind takes a secret that has already been built. In the service, `BindAsync` resolves the singleton secret (GithubWebhook.cs:35) before it checks any header. With the secret unconfigured, every request therefore fails with the constructor's exception before the `X-GitHub-Event` check. The model does not capture that failure; `NewGithubWebhookSecret` models the refusal on its own.
- The headers are modelled as a map whose type admits only lower-case names as keys. This stands in for the case-insensitive `IHeaderDictionary`. A header's values become one string as `StringValues.ToString` makes it: a single value as it is, and several values joined with `,` after the empty ones are skipped. Null entries in a value list cannot occur in the model.
- The internals of HMAC-SHA256 are not modelled. The model takes it as a function parameter returning 32 bytes.
- GithubWebhook.FixedTimeEquals does not model timing. It states only the result of the comparison.
- `BindAsync` returning `null` is not modelled; the source never does it.
- Configuration lookup for `GitHub:WebhookSecret` is a parameter (`None` for a missing key). The exception becomes a `Failure` carrying its message.
- `weatherEmoji` takes a JavaScript number. Temperatures are modelled as integers, so fractional values and `NaN` are not covered. Returned emoji strings are modelled as constructors of `Emoji`, one per code-point sequence.
- The rest of the repository is not part of this model: the Python MCP demo, the application hosts, the Express and browser scripts, and the React components and services.
