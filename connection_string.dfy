/**
 * Model of `parseConnectionString` (ghmodel/backend/connectionString.js): it reads the
 * environment variable `ConnectionStrings__<name>`, splits its value `Endpoint=…;Key=…;Model=…`
 * into segments, collects case-insensitive key/value pairs and reports the missing fields.
 * The environment lookup is the `env` parameter; a thrown `Error` is the `Threw` outcome.
 */
module ConnectionString {
  import opened Wrappers
  import opened Text

  /** What the function returns: the three fields (`None` is `undefined`), validity and errors. */
  datatype ConnectionInfo = ConnectionInfo(
    endpoint: Option<string>,
    key: Option<string>,
    model: Option<string>,
    isValid: bool,
    errors: seq<string>)

  /** Either the returned object or the message of the `Error` thrown under `throwOnError`. */
  datatype ParseOutcome = Returned(info: ConnectionInfo) | Threw(message: string)

  const MissingEndpoint: string := "Missing Endpoint=... segment."
  const MissingKey: string := "Missing Key=... segment."
  const MissingModel: string := "Missing Model=... segment."

  /** Name of the environment variable the connection string named `name` is read from. */
  function EnvKey(name: string): string {
    "ConnectionStrings__" + name
  }

  function MissingEnvMessage(name: string): string {
    "Environment variable " + EnvKey(name) + " is missing or empty."
  }

  /** The characters `String.prototype.trim` removes: ECMAScript WhiteSpace and LineTerminator. */
  predicate IsJsWhite(c: char) {
    c == '\t' || c == '\n' || c == '\U{0B}' || c == '\U{0C}' || c == '\r' || c == ' '
    || c == '\U{A0}' || c == '\U{1680}' || ('\U{2000}' <= c <= '\U{200A}')
    || c == '\U{2028}' || c == '\U{2029}' || c == '\U{202F}' || c == '\U{205F}'
    || c == '\U{3000}' || c == '\U{FEFF}'
  }

  predicate AllWhite(s: string) {
    forall i :: 0 <= i < |s| ==> IsJsWhite(s[i])
  }

  /** Number of leading whitespace characters of `s`. */
  function TrimStartIndex(s: string): (k: nat)
    ensures k <= |s|
  {
    if |s| == 0 || !IsJsWhite(s[0]) then 0 else 1 + TrimStartIndex(s[1..])
  }

  /** `TrimStartIndex` stops at the first character that is not whitespace. */
  lemma {:induction false} TrimStartIndexSpec(s: string)
    ensures var k := TrimStartIndex(s);
            (forall i :: 0 <= i < k ==> IsJsWhite(s[i])) && (k < |s| ==> !IsJsWhite(s[k]))
  {
    if |s| > 0 && IsJsWhite(s[0]) {
      TrimStartIndexSpec(s[1..]);
      var k := TrimStartIndex(s);
      forall i | 0 <= i < k ensures IsJsWhite(s[i]) {
        if i > 0 { assert s[i] == s[1..][i - 1]; }
      }
    }
  }

  /** Length of `s` without its trailing whitespace. */
  function TrimEndIndex(s: string): (k: nat)
    ensures k <= |s|
  {
    if |s| == 0 || !IsJsWhite(s[|s| - 1]) then |s| else TrimEndIndex(s[..|s| - 1])
  }

  /** `TrimEndIndex` stops after the last character that is not whitespace. */
  lemma {:induction false} TrimEndIndexSpec(s: string)
    ensures var k := TrimEndIndex(s);
            (forall i :: k <= i < |s| ==> IsJsWhite(s[i])) && (k > 0 ==> !IsJsWhite(s[k - 1]))
  {
    if |s| > 0 && IsJsWhite(s[|s| - 1]) {
      TrimEndIndexSpec(s[..|s| - 1]);
    }
  }

  /** `String.prototype.trim`: `s` without leading and trailing whitespace. */
  function Trim(s: string): (r: string)
    ensures |r| <= |s|
  {
    var a := TrimStartIndex(s);
    var b := TrimEndIndex(s);
    if b <= a then "" else s[a..b]
  }

  /**
   * `Trim(s)` is the slice of `s` left after removing whitespace-only margins; it has no
   * whitespace at either end, and it is empty exactly when `s` is all whitespace.
   */
  lemma TrimSpec(s: string)
    ensures Trim(s) == "" <==> AllWhite(s)
    ensures Trim(s) != "" ==> !IsJsWhite(Trim(s)[0]) && !IsJsWhite(Trim(s)[|Trim(s)| - 1])
    ensures exists a: nat :: TrimmedAt(s, a, Trim(s))
  {
    var a := TrimStartIndex(s);
    var b := TrimEndIndex(s);
    TrimStartIndexSpec(s);
    TrimEndIndexSpec(s);
    if b <= a {
      assert TrimmedAt(s, 0, "");
    } else {
      assert s[a..a + (b - a)] == s[a..b];
      assert TrimmedAt(s, a, Trim(s));
    }
  }

  /** `r` sits in `s` at index `a` with only whitespace before and after it. */
  predicate TrimmedAt(s: string, a: nat, r: string) {
    && a + |r| <= |s| && r == s[a..a + |r|]
    && (forall i :: 0 <= i < a ==> IsJsWhite(s[i]))
    && (forall i :: a + |r| <= i < |s| ==> IsJsWhite(s[i]))
  }

  /** A string with no whitespace at either end trims to itself. */
  lemma TrimOfTrimmed(s: string)
    requires s == "" || (!IsJsWhite(s[0]) && !IsJsWhite(s[|s| - 1]))
    ensures Trim(s) == s
  {
  }

  /** `String.prototype.indexOf` for one character: the first index of `c`, or `None` (-1). */
  function IndexOf(s: string, c: char): (r: Option<nat>)
    ensures r.None? <==> c !in s
    ensures r.Some? ==> r.value < |s| && s[r.value] == c
                        && forall j :: 0 <= j < r.value ==> s[j] != c
  {
    if |s| == 0 then None
    else if s[0] == c then Some(0)
    else
      match IndexOf(s[1..], c)
      case None => None
      case Some(i) => Some(i + 1)
  }

  /**
   * What one segment contributes (lines 19-25): split at its first `=`, trim both sides, and
   * keep the pair, with the key lower-cased, only when both sides are non-empty.
   */
  function SegmentPair(part: string): Option<(string, string)> {
    match IndexOf(part, '=')
    case None => None
    case Some(idx) =>
      var k := Trim(part[..idx]);
      var v := Trim(part[idx + 1..]);
      if k != "" && v != "" then Some((Lower(k), v)) else None
  }

  /**
   * `parts.filter(p => p.trim().length > 0)`: a segment is dropped when it is white space only,
   * which is when it trims to "" (`TrimSpec`).
   */
  function NonBlank(parts: seq<string>): (r: seq<string>)
    ensures |r| <= |parts|
  {
    if parts == [] then []
    else
      var init := NonBlank(parts[..|parts| - 1]);
      var last := parts[|parts| - 1];
      if AllWhite(last) then init else init + [last]
  }

  /** The filter keeps exactly the non-blank segments: every kept one is non-blank, none is lost. */
  lemma {:induction false} NonBlankSpec(parts: seq<string>)
    ensures forall i :: 0 <= i < |NonBlank(parts)| ==> !AllWhite(NonBlank(parts)[i])
    ensures forall p :: p in parts && !AllWhite(p) ==> p in NonBlank(parts)
    ensures forall p :: p in NonBlank(parts) ==> p in parts
  {
    if parts != [] {
      var init := parts[..|parts| - 1];
      NonBlankSpec(init);
      assert parts == init + [parts[|parts| - 1]];
    }
  }

  /** What each segment contributes, in order (lines 19-25). */
  function Contributions(parts: seq<string>): seq<Option<(string, string)>> {
    if parts == [] then []
    else Contributions(parts[..|parts| - 1]) + [SegmentPair(parts[|parts| - 1])]
  }

  /** The contribution at index `j` is that of the `j`-th segment. */
  lemma {:induction false} ContributionsAt(parts: seq<string>, j: nat)
    requires j < |parts|
    ensures |Contributions(parts)| == |parts| && Contributions(parts)[j] == SegmentPair(parts[j])
  {
    var init := parts[..|parts| - 1];
    if j < |init| {
      ContributionsAt(init, j);
    } else {
      LengthOfContributions(init);
    }
  }

  lemma {:induction false} LengthOfContributions(parts: seq<string>)
    ensures |Contributions(parts)| == |parts|
  {
    if parts != [] {
      LengthOfContributions(parts[..|parts| - 1]);
    }
  }

  /**
   * The map the loop at lines 18-26 builds from the segments' contributions, taken in order:
   * a segment without a pair leaves it unchanged, a pair is stored under its key.
   */
  function Collect(pairs: seq<Option<(string, string)>>): map<string, string> {
    if pairs == [] then map[]
    else
      var m := Collect(pairs[..|pairs| - 1]);
      match pairs[|pairs| - 1]
      case None => m
      case Some((k, v)) => m[k := v]
  }

  /** The map built from `parts`. */
  function PairsMap(parts: seq<string>): map<string, string> {
    Collect(Contributions(parts))
  }

  /** `map[key]`: `None` stands for `undefined`. */
  function Lookup(m: map<string, string>, key: string): Option<string> {
    if key in m then Some(m[key]) else None
  }

  /** JavaScript falsiness of a looked-up field: `undefined` or the empty string. */
  predicate Falsy(field: Option<string>) {
    field.None? || field.value == ""
  }

  /** The error list of lines 30-32, in the order Endpoint, Key, Model. */
  function MissingErrors(endpoint: Option<string>, key: Option<string>, model: Option<string>): (errors: seq<string>)
    ensures |errors| <= 3
    ensures |errors| == 0 <==> !Falsy(endpoint) && !Falsy(key) && !Falsy(model)
  {
    (if Falsy(endpoint) then [MissingEndpoint] else [])
    + (if Falsy(key) then [MissingKey] else [])
    + (if Falsy(model) then [MissingModel] else [])
  }

  /** The object `parseConnectionString(name)` computes when `env` is the variable's value. */
  function Parsed(name: string, env: Option<string>): (info: ConnectionInfo)
    ensures info.isValid <==> info.errors == []
    ensures info.isValid ==> info.endpoint.Some? && info.key.Some? && info.model.Some?
  {
    if env.None? || env.value == "" then
      ConnectionInfo(None, None, None, false, [MissingEnvMessage(name)])
    else
      var m := PairsMap(NonBlank(Split(env.value, ';')));
      var endpoint, key, model := Lookup(m, "endpoint"), Lookup(m, "key"), Lookup(m, "model");
      var errors := MissingErrors(endpoint, key, model);
      ConnectionInfo(endpoint, key, model, |errors| == 0, errors)
  }

  /** Lines 13 and 34: with `throwOnError` a non-empty error list is thrown, joined by newlines. */
  function Outcome(info: ConnectionInfo, throwOnError: bool): ParseOutcome {
    if throwOnError && |info.errors| > 0 then Threw(Join(info.errors, '\n')) else Returned(info)
  }

  /** `String.prototype.indexOf` finds the first `=`: the one right after an `=`-free prefix. */
  lemma IndexOfAfterPrefix(a: string, b: string)
    requires '=' !in a
    ensures IndexOf(a + "=" + b, '=') == Some(|a|)
  {
    var s := a + "=" + b;
    assert s[|a|] == '=';
    assert s[..|a|] == a;
  }

  /**
   * A segment is split at its first `=` only: the value is the trimmed rest, any later `=`
   * included, and the pair is kept only when both trimmed sides are non-empty.
   */
  lemma SegmentSplitsAtFirstEquals(a: string, b: string)
    requires '=' !in a
    ensures SegmentPair(a + "=" + b)
            == if Trim(a) != "" && Trim(b) != "" then Some((Lower(Trim(a)), Trim(b))) else None
  {
    var s := a + "=" + b;
    IndexOfAfterPrefix(a, b);
    assert s[..|a|] == a;
    assert s[|a| + 1..] == b;
  }

  /** A segment with no `=` contributes nothing. */
  lemma NoEqualsNoPair(part: string)
    requires '=' !in part
    ensures SegmentPair(part) == None
  {
  }

  /** A blank segment has no `=`, so it never defines a pair. */
  lemma BlankHasNoPair(part: string)
    requires AllWhite(part)
    ensures SegmentPair(part) == None
  {
    assert '=' !in part;
  }

  /** The contribution `p` stores a value under `key`. */
  predicate Sets(p: Option<(string, string)>, key: string) {
    p.Some? && p.value.0 == key
  }

  /** A key is present exactly when some contribution stores it. */
  lemma {:induction false} PresentIffSet(pairs: seq<Option<(string, string)>>, key: string)
    ensures key in Collect(pairs) <==> exists j :: 0 <= j < |pairs| && Sets(pairs[j], key)
  {
    if pairs != [] {
      var init := pairs[..|pairs| - 1];
      PresentIffSet(init, key);
      assert forall j :: 0 <= j < |init| ==> init[j] == pairs[j];
    }
  }

  /**
   * The value under a present key is the one stored by the last contribution for that key:
   * a later duplicate wins.
   */
  lemma {:induction false} LastDefinitionWins(pairs: seq<Option<(string, string)>>, key: string)
    requires key in Collect(pairs)
    ensures exists j :: 0 <= j < |pairs| && pairs[j] == Some((key, Collect(pairs)[key]))
                        && forall j' :: j < j' < |pairs| ==> !Sets(pairs[j'], key)
  {
    var init, last := pairs[..|pairs| - 1], pairs[|pairs| - 1];
    if Sets(last, key) {
      assert pairs[|pairs| - 1] == Some((key, Collect(pairs)[key]));
    } else {
      LastDefinitionWins(init, key);
      var j :| 0 <= j < |init| && init[j] == Some((key, Collect(init)[key]))
               && forall j' :: j < j' < |init| ==> !Sets(init[j'], key);
      assert pairs[j] == init[j];
      assert forall j' :: j < j' < |pairs| - 1 ==> pairs[j'] == init[j'];
    }
  }

  /** Processing one more segment stores its pair, if it has one. */
  lemma CollectSnoc(pairs: seq<Option<(string, string)>>, p: Option<(string, string)>)
    ensures Collect(pairs + [p]) == if p.Some? then Collect(pairs)[p.value.0 := p.value.1] else Collect(pairs)
  {
    assert (pairs + [p])[..|pairs|] == pairs;
  }

  /** One more segment adds its own contribution at the end. */
  lemma ContributionsSnoc(parts: seq<string>, p: string)
    ensures Contributions(parts + [p]) == Contributions(parts) + [SegmentPair(p)]
  {
    assert (parts + [p])[..|parts|] == parts;
  }

  /** The filter keeps or drops the last segment according to whether it is blank. */
  lemma NonBlankSnoc(parts: seq<string>, p: string)
    ensures NonBlank(parts + [p]) == if AllWhite(p) then NonBlank(parts) else NonBlank(parts) + [p]
  {
    assert (parts + [p])[..|parts|] == parts;
  }

  /** Dropping blank segments first (line 16) does not change the map the loop builds. */
  lemma {:induction false} BlankSegmentsIgnored(parts: seq<string>)
    ensures PairsMap(NonBlank(parts)) == PairsMap(parts)
  {
    if parts != [] {
      var init, last := parts[..|parts| - 1], parts[|parts| - 1];
      assert parts == init + [last];
      BlankSegmentsIgnored(init);
      ContributionsSnoc(init, last);
      CollectSnoc(Contributions(init), SegmentPair(last));
      NonBlankSnoc(init, last);
      if AllWhite(last) {
        BlankHasNoPair(last);
      } else {
        ContributionsSnoc(NonBlank(init), last);
        CollectSnoc(Contributions(NonBlank(init)), SegmentPair(last));
      }
    }
  }

  /** What a segment contributes has a non-empty lower-case key and a non-empty unpadded value. */
  lemma SegmentPairShape(part: string)
    requires SegmentPair(part).Some?
    ensures var (k, v) := SegmentPair(part).value;
            k != "" && Lower(k) == k && v != "" && Trim(v) == v
  {
    var idx := IndexOf(part, '=').value;
    var key, value := Trim(part[..idx]), Trim(part[idx + 1..]);
    assert SegmentPair(part) == Some((Lower(key), value));
    TrimIdempotent(part[idx + 1..]);
    LowerIdempotent(key);
  }

  /** Trimming twice is trimming once. */
  lemma TrimIdempotent(s: string)
    ensures Trim(Trim(s)) == Trim(s)
  {
    TrimSpec(s);
    TrimOfTrimmed(Trim(s));
  }

  /**
   * Every stored pair has a non-empty lower-case key and a non-empty value with no
   * whitespace at either end; so a looked-up field is falsy exactly when it is undefined.
   */
  lemma PairsMapEntries(parts: seq<string>)
    ensures forall k :: k in PairsMap(parts) ==>
              k != "" && Lower(k) == k && PairsMap(parts)[k] != ""
              && Trim(PairsMap(parts)[k]) == PairsMap(parts)[k]
  {
    forall k | k in PairsMap(parts)
      ensures k != "" && Lower(k) == k && PairsMap(parts)[k] != ""
              && Trim(PairsMap(parts)[k]) == PairsMap(parts)[k]
    {
      LastDefinitionWins(Contributions(parts), k);
      LengthOfContributions(parts);
      var j :| 0 <= j < |parts| && Contributions(parts)[j] == Some((k, PairsMap(parts)[k]));
      ContributionsAt(parts, j);
      SegmentPairShape(parts[j]);
    }
  }

  /**
   * Without a usable value: `isValid` is false, the only error names the variable
   * `ConnectionStrings__<name>`, and all three fields are undefined.
   */
  lemma MissingValue(name: string, env: Option<string>)
    requires env.None? || env.value == ""
    ensures var info := Parsed(name, env);
            && !info.isValid && |info.errors| == 1 && Contains(info.errors[0], EnvKey(name))
            && info.endpoint.None? && info.key.None? && info.model.None?
  {
    var msg, key := MissingEnvMessage(name), EnvKey(name);
    var head := "Environment variable ";
    assert |head| == 21;
    assert msg[21..] == key + " is missing or empty.";
    assert msg[21..][..|key|] == key;
    assert OccursAt(msg, key, 21);
  }

  /**
   * The error list names each missing field once, in the order Endpoint, Key, Model, so it has
   * at most three entries, and `isValid` holds exactly when it is empty.
   */
  lemma ErrorsListMissingFields(name: string, cs: string)
    requires cs != ""
    ensures var info := Parsed(name, Some(cs));
            && (info.isValid <==> info.errors == [])
            && |info.errors| <= 3
            && info.errors == (if info.endpoint.None? then [MissingEndpoint] else [])
                              + (if info.key.None? then [MissingKey] else [])
                              + (if info.model.None? then [MissingModel] else [])
  {
    var m := PairsMap(NonBlank(Split(cs, ';')));
    PairsMapEntries(NonBlank(Split(cs, ';')));
    var endpoint, key, model := Lookup(m, "endpoint"), Lookup(m, "key"), Lookup(m, "model");
    assert Parsed(name, Some(cs)) == ConnectionInfo(endpoint, key, model, |MissingErrors(endpoint, key, model)| == 0,
                                                    MissingErrors(endpoint, key, model));
    MissingErrorsOfStored(endpoint, key, model);
  }

  /** For fields that are undefined or non-empty, each missing one is reported once, in order. */
  lemma MissingErrorsOfStored(endpoint: Option<string>, key: Option<string>, model: Option<string>)
    requires endpoint.Some? ==> endpoint.value != ""
    requires key.Some? ==> key.value != ""
    requires model.Some? ==> model.value != ""
    ensures var errors := MissingErrors(endpoint, key, model);
            && |errors| <= 3
            && errors == (if endpoint.None? then [MissingEndpoint] else [])
                         + (if key.None? then [MissingKey] else [])
                         + (if model.None? then [MissingModel] else [])
  {
  }

  /** A valid result has all three fields set; an invalid one has an error for each missing one. */
  lemma ValidMeansAllFields(name: string, env: Option<string>)
    ensures var info := Parsed(name, env);
            info.isValid <==> info.endpoint.Some? && info.key.Some? && info.model.Some?
  {
    if env.Some? && env.value != "" {
      ErrorsListMissingFields(name, env.value);
    }
  }

  /** Every message the parser can report is free of newlines when `name` is. */
  lemma ErrorsHaveNoNewline(name: string, env: Option<string>)
    requires '\n' !in name
    ensures forall i :: 0 <= i < |Parsed(name, env).errors| ==> '\n' !in Parsed(name, env).errors[i]
  {
    if env.None? || env.value == "" {
      assert '\n' !in MissingEnvMessage(name);
    } else {
      var m := PairsMap(NonBlank(Split(env.value, ';')));
      MissingErrorsHaveNoNewline(Lookup(m, "endpoint"), Lookup(m, "key"), Lookup(m, "model"));
    }
  }

  lemma MissingErrorsHaveNoNewline(endpoint: Option<string>, key: Option<string>, model: Option<string>)
    ensures forall i :: 0 <= i < |MissingErrors(endpoint, key, model)| ==> '\n' !in MissingErrors(endpoint, key, model)[i]
  {
    assert '\n' !in MissingEndpoint && '\n' !in MissingKey && '\n' !in MissingModel;
  }

  /**
   * For every name, `throwOnError` makes the parser throw exactly when the result is invalid; a
   * valid result, or a call without the flag, returns the result unchanged.
   */
  lemma ThrowOnErrorIffInvalid(name: string, env: Option<string>)
    ensures var info := Parsed(name, env);
            && (Outcome(info, true).Threw? <==> !info.isValid)
            && (info.isValid ==> Outcome(info, true) == Returned(info))
            && Outcome(info, false) == Returned(info)
  {
    if env.Some? && env.value != "" {
      ErrorsListMissingFields(name, env.value);
    }
  }

  /**
   * The thrown message splits back into the error list at its newlines, provided `name` holds no
   * newline of its own (otherwise the missing-variable message would split in two).
   */
  lemma ThrowOnErrorJoinsMessages(name: string, env: Option<string>)
    requires '\n' !in name
    ensures var info := Parsed(name, env);
            Outcome(info, true).Threw? ==> Split(Outcome(info, true).message, '\n') == info.errors
  {
    var info := Parsed(name, env);
    ErrorsHaveNoNewline(name, env);
    if |info.errors| > 0 {
      SplitJoin(info.errors, '\n');
    }
  }

  /** A key spelled `spelled` that matches `canonical` ignoring case is stored under `canonical`. */
  lemma KeySegment(spelled: string, canonical: string, value: string)
    requires Lower(spelled) == canonical
    requires IsLowerWord(canonical)
    requires value != "" && !IsJsWhite(value[0]) && !IsJsWhite(value[|value| - 1])
    ensures SegmentPair(spelled + "=" + value) == Some((canonical, value))
  {
    assert forall i :: 0 <= i < |spelled| ==> LowerChar(spelled[i]) == canonical[i];
    assert '=' !in spelled;
    assert !IsJsWhite(spelled[0]) by { assert LowerChar(spelled[0]) == canonical[0]; }
    assert !IsJsWhite(spelled[|spelled| - 1]) by {
      assert LowerChar(spelled[|spelled| - 1]) == canonical[|spelled| - 1];
    }
    TrimOfTrimmed(spelled);
    TrimOfTrimmed(value);
    SegmentSplitsAtFirstEquals(spelled, value);
  }

  /** A non-empty word of lower-case ASCII letters, such as the three field names. */
  predicate IsLowerWord(w: string) {
    w != "" && forall i :: 0 <= i < |w| ==> 'a' <= w[i] <= 'z'
  }

  /** A field value suitable for the connection string: non-empty, unpadded, no `;`. */
  predicate IsFieldValue(v: string) {
    v != "" && !IsJsWhite(v[0]) && !IsJsWhite(v[|v| - 1]) && ';' !in v
  }

  /** A key spelling that lower-cases to a `;`-free word has no `;` either. */
  lemma NoSemicolonInKey(spelled: string, canonical: string)
    requires Lower(spelled) == canonical && ';' !in canonical
    ensures ';' !in spelled
  {
    assert forall i :: 0 <= i < |spelled| ==> LowerChar(spelled[i]) == canonical[i];
  }

  /** Three `;`-free segments joined by `;` split back into those three. */
  lemma SplitThree(s1: string, s2: string, s3: string)
    requires ';' !in s1 && ';' !in s2 && ';' !in s3
    ensures Split(s1 + ";" + s2 + ";" + s3, ';') == [s1, s2, s3]
  {
    assert s1 + ";" + s2 + ";" + s3 == s1 + [';'] + (s2 + [';'] + s3);
    SplitCons(s1, ';', s2 + [';'] + s3);
    SplitCons(s2, ';', s3);
    SplitNoSep(s3, ';');
  }

  /** The filter keeps every segment when none is blank. */
  lemma {:induction false} NonBlankKeepsAll(parts: seq<string>)
    requires forall i :: 0 <= i < |parts| ==> !AllWhite(parts[i])
    ensures NonBlank(parts) == parts
  {
    if parts != [] {
      var init := parts[..|parts| - 1];
      assert forall i :: 0 <= i < |init| ==> init[i] == parts[i];
      NonBlankKeepsAll(init);
      assert parts == init + [parts[|parts| - 1]];
    }
  }

  /** Three segments that each define a pair are kept by the filter. */
  lemma NonBlankThree(s1: string, s2: string, s3: string)
    requires SegmentPair(s1).Some? && SegmentPair(s2).Some? && SegmentPair(s3).Some?
    ensures NonBlank([s1, s2, s3]) == [s1, s2, s3]
  {
    if AllWhite(s1) { BlankHasNoPair(s1); }
    if AllWhite(s2) { BlankHasNoPair(s2); }
    if AllWhite(s3) { BlankHasNoPair(s3); }
    NonBlankKeepsAll([s1, s2, s3]);
  }

  /** Three stored pairs with distinct keys are all present in the map. */
  lemma CollectThree(p1: (string, string), p2: (string, string), p3: (string, string))
    ensures Collect([Some(p1), Some(p2), Some(p3)]) == map[p1.0 := p1.1][p2.0 := p2.1][p3.0 := p3.1]
  {
    assert [Some(p1)] == [] + [Some(p1)];
    assert [Some(p1), Some(p2)] == [Some(p1)] + [Some(p2)];
    assert [Some(p1), Some(p2), Some(p3)] == [Some(p1), Some(p2)] + [Some(p3)];
    CollectSnoc([], Some(p1));
    CollectSnoc([Some(p1)], Some(p2));
    CollectSnoc([Some(p1), Some(p2)], Some(p3));
  }

  /** Three `;`-free segments, each defining a pair, build the map of those three pairs. */
  lemma ThreeSegmentsMap(s1: string, s2: string, s3: string,
                         p1: (string, string), p2: (string, string), p3: (string, string))
    requires ';' !in s1 && ';' !in s2 && ';' !in s3
    requires SegmentPair(s1) == Some(p1) && SegmentPair(s2) == Some(p2) && SegmentPair(s3) == Some(p3)
    ensures PairsMap(NonBlank(Split(s1 + ";" + s2 + ";" + s3, ';')))
            == map[p1.0 := p1.1][p2.0 := p2.1][p3.0 := p3.1]
  {
    SplitThree(s1, s2, s3);
    NonBlankThree(s1, s2, s3);
    ContributionsThree(s1, s2, s3, p1, p2, p3);
    CollectThree(p1, p2, p3);
  }

  /** The contributions of three segments, each defining a pair, are those pairs. */
  lemma ContributionsThree(s1: string, s2: string, s3: string,
                           p1: (string, string), p2: (string, string), p3: (string, string))
    requires SegmentPair(s1) == Some(p1) && SegmentPair(s2) == Some(p2) && SegmentPair(s3) == Some(p3)
    ensures Contributions([s1, s2, s3]) == [Some(p1), Some(p2), Some(p3)]
  {
    var parts := [s1, s2, s3];
    LengthOfContributions(parts);
    ContributionsAt(parts, 0);
    ContributionsAt(parts, 1);
    ContributionsAt(parts, 2);
  }

  /** When the map holds all three fields, the result is valid and carries them. */
  lemma ParsedFromFields(name: string, cs: string, e: string, k: string, m: string)
    requires cs != "" && e != "" && k != "" && m != ""
    requires PairsMap(NonBlank(Split(cs, ';'))) == map["endpoint" := e]["key" := k]["model" := m]
    ensures Parsed(name, Some(cs)) == ConnectionInfo(Some(e), Some(k), Some(m), true, [])
  {
    var fields := map["endpoint" := e]["key" := k]["model" := m];
    assert "endpoint" != "key" && "endpoint" != "model" && "key" != "model";
    assert Lookup(fields, "endpoint") == Some(e);
    assert Lookup(fields, "key") == Some(k);
    assert Lookup(fields, "model") == Some(m);
    assert MissingErrors(Some(e), Some(k), Some(m)) == [];
  }

  /** A field written `spelled=value` is a `;`-free segment storing `value` under `canonical`. */
  lemma FieldSegment(spelled: string, canonical: string, value: string)
    requires Lower(spelled) == canonical
    requires IsLowerWord(canonical)
    requires IsFieldValue(value)
    ensures ';' !in spelled + "=" + value
    ensures SegmentPair(spelled + "=" + value) == Some((canonical, value))
  {
    NoSemicolonInKey(spelled, canonical);
    KeySegment(spelled, canonical, value);
  }

  /** The three fields of `Endpoint=e;Key=k;Model=m` are `;`-free segments storing e, k and m. */
  lemma FieldSegments(ek: string, kk: string, mk: string, e: string, k: string, m: string)
    requires Lower(ek) == "endpoint" && Lower(kk) == "key" && Lower(mk) == "model"
    requires IsFieldValue(e) && IsFieldValue(k) && IsFieldValue(m)
    ensures ';' !in ek + "=" + e && ';' !in kk + "=" + k && ';' !in mk + "=" + m
    ensures SegmentPair(ek + "=" + e) == Some(("endpoint", e))
    ensures SegmentPair(kk + "=" + k) == Some(("key", k))
    ensures SegmentPair(mk + "=" + m) == Some(("model", m))
  {
    assert IsLowerWord("endpoint") && IsLowerWord("key") && IsLowerWord("model");
    FieldSegment(ek, "endpoint", e);
    FieldSegment(kk, "key", k);
    FieldSegment(mk, "model", m);
  }

  /** `Endpoint=e;Key=k;Model=m` is its three `key=value` segments joined by `;`. */
  lemma FieldsJoined(ek: string, kk: string, mk: string, e: string, k: string, m: string)
    ensures ek + "=" + e + ";" + kk + "=" + k + ";" + mk + "=" + m
            == (ek + "=" + e) + ";" + (kk + "=" + k) + ";" + (mk + "=" + m)
  {
  }

  /** The map built from `Endpoint=e;Key=k;Model=m`, for any spelling of the keys, holds e, k, m. */
  lemma RoundTripMap(ek: string, kk: string, mk: string, e: string, k: string, m: string)
    requires Lower(ek) == "endpoint" && Lower(kk) == "key" && Lower(mk) == "model"
    requires IsFieldValue(e) && IsFieldValue(k) && IsFieldValue(m)
    ensures PairsMap(NonBlank(Split(ek + "=" + e + ";" + kk + "=" + k + ";" + mk + "=" + m, ';')))
            == map["endpoint" := e]["key" := k]["model" := m]
  {
    FieldsJoined(ek, kk, mk, e, k, m);
    FieldSegments(ek, kk, mk, e, k, m);
    ThreeSegmentsMap(ek + "=" + e, kk + "=" + k, mk + "=" + m, ("endpoint", e), ("key", k), ("model", m));
  }

  /**
   * Round trip: for any spelling of the three keys (ignoring case) and unpadded values without
   * `;`, parsing `Endpoint=e;Key=k;Model=m` gives a valid result holding exactly e, k and m.
   */
  lemma RoundTrip(name: string, ek: string, kk: string, mk: string, e: string, k: string, m: string)
    requires Lower(ek) == "endpoint" && Lower(kk) == "key" && Lower(mk) == "model"
    requires IsFieldValue(e) && IsFieldValue(k) && IsFieldValue(m)
    ensures Parsed(name, Some(ek + "=" + e + ";" + kk + "=" + k + ";" + mk + "=" + m))
            == ConnectionInfo(Some(e), Some(k), Some(m), true, [])
  {
    RoundTripMap(ek, kk, mk, e, k, m);
    ParsedFromFields(name, ek + "=" + e + ";" + kk + "=" + k + ";" + mk + "=" + m, e, k, m);
  }

  /**
   * `parseConnectionString(name, { throwOnError })` with `env` the value of
   * `process.env["ConnectionStrings__" + name]`.
   */
  method ParseConnectionString(name: string, env: Option<string>, throwOnError: bool)
    returns (outcome: ParseOutcome)
    ensures outcome == Outcome(Parsed(name, env), throwOnError)
  {
    var errors: seq<string> := [];
    if env.None? || env.value == "" {
      errors := errors + [MissingEnvMessage(name)];
      var result := ConnectionInfo(None, None, None, false, errors);
      if throwOnError {
        return Threw(Join(errors, '\n'));
      }
      return Returned(result);
    }
    var cs := env.value;
    var parts := NonBlank(Split(cs, ';'));
    var m: map<string, string> := map[];
    for i := 0 to |parts|
      invariant m == PairsMap(parts[..i])
    {
      var pair := SegmentPair(parts[i]);
      assert parts[..i + 1] == parts[..i] + [parts[i]];
      ContributionsSnoc(parts[..i], parts[i]);
      CollectSnoc(Contributions(parts[..i]), pair);
      if pair.Some? {
        var (k, v) := pair.value;
        m := m[k := v];
      }
    }
    assert parts[..|parts|] == parts;
    var endpoint := Lookup(m, "endpoint");
    var key := Lookup(m, "key");
    var model := Lookup(m, "model");
    if Falsy(endpoint) {
      errors := errors + [MissingEndpoint];
    }
    assert errors == if Falsy(endpoint) then [MissingEndpoint] else [];
    ghost var soFar := errors;
    if Falsy(key) {
      errors := errors + [MissingKey];
    }
    assert errors == soFar + if Falsy(key) then [MissingKey] else [];
    soFar := errors;
    if Falsy(model) {
      errors := errors + [MissingModel];
    }
    assert errors == soFar + if Falsy(model) then [MissingModel] else [];
    assert errors == MissingErrors(endpoint, key, model);
    var result := ConnectionInfo(endpoint, key, model, |errors| == 0, errors);
    assert result == Parsed(name, env);
    if throwOnError && |errors| > 0 {
      return Threw(Join(errors, '\n'));
    }
    return Returned(result);
  }
}
