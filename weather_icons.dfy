/**
 * The weather-emoji classifier of the forecast page: a summary (matched without regard to case)
 * and a temperature in degrees Celsius choose one of fourteen icons. Two temperature overrides
 * come first, then keyword rules in a fixed order where the first match wins, then temperature
 * bands.
 */
module WeatherIcons {
  import opened Wrappers
  import opened Text

  /** The icons, named after the emoji the source returns. */
  datatype Emoji =
    | Snowflake    // U+2744 U+FE0F
    | ColdFace     // U+1F976
    | Fire         // U+1F525
    | HotFace      // U+1F975
    | Storm        // U+26C8 U+FE0F
    | Rain         // U+1F327 U+FE0F
    | Coat         // U+1F9E5
    | SunCloud     // U+1F324 U+FE0F
    | Sun          // U+1F31E
    | Wind         // U+1F32C U+FE0F
    | Ice          // U+1F9CA
    | Cloud        // U+1F325 U+FE0F
    | Sunny        // U+2600 U+FE0F
    | Thermometer  // U+1F321 U+FE0F

  /** Every keyword any rule looks for. */
  const Keywords: seq<string> := [
    "snow", "freez", "ice", "scorch", "swelter", "storm", "thunder", "rain", "shower",
    "chill", "cool", "warm", "mild", "balmy", "hot", "bracing"
  ]

  /** `(summary || '').toLowerCase()`: a missing summary is the empty string. */
  function Normalized(summary: Option<string>): (s: string)
    ensures summary.None? ==> s == ""
    ensures forall i :: 0 <= i < |s| ==> !IsAsciiUpper(s[i])
  {
    Lower(summary.GetOr(""))
  }

  /** The keyword rules for temperatures strictly between 0 and 32, in source order; `None` if none matches. */
  function KeywordEmoji(s: string): (r: Option<Emoji>)
    ensures r.Some? ==> r.value in {Storm, Rain, Coat, SunCloud, Sun, Wind, Fire, Snowflake}
  {
    if Contains(s, "storm") || Contains(s, "thunder") then Some(Storm)
    else if Contains(s, "rain") || Contains(s, "shower") then Some(Rain)
    else if Contains(s, "chill") || Contains(s, "cool") then Some(Coat)
    else if Contains(s, "warm") || Contains(s, "mild") || Contains(s, "balmy") then Some(SunCloud)
    else if Contains(s, "hot") then Some(Sun)
    else if Contains(s, "bracing") then Some(Wind)
    else if Contains(s, "scorch") then Some(Fire)
    else if Contains(s, "freez") then Some(Snowflake)
    else None
  }

  /** The fallback by comfortable ranges. */
  function BandEmoji(c: int): (r: Emoji)
    ensures r in {Ice, Cloud, Sunny, Thermometer}
  {
    if c < 10 then Ice
    else if c < 20 then Cloud
    else if c < 28 then Sunny
    else Thermometer
  }

  /**
   * `weatherEmoji(summary, c)`: at or below freezing only snowflake or cold face, at 32 degrees
   * or more only fire or hot face, in between never either face.
   */
  function WeatherEmoji(summary: Option<string>, c: int): (e: Emoji)
    ensures c <= 0 ==> e in {Snowflake, ColdFace}
    ensures c >= 32 ==> e in {Fire, HotFace}
    ensures 0 < c < 32 ==> e !in {ColdFace, HotFace}
  {
    var s := Normalized(summary);
    if c <= 0 then
      if Contains(s, "snow") || Contains(s, "freez") || Contains(s, "ice") then Snowflake else ColdFace
    else if c >= 32 then
      if Contains(s, "scorch") || Contains(s, "swelter") then Fire else HotFace
    else
      match KeywordEmoji(s)
      case Some(e) => e
      case None => BandEmoji(c)
  }

  /** A missing summary behaves exactly like the empty one. */
  lemma NullIsEmpty(c: int)
    ensures WeatherEmoji(None, c) == WeatherEmoji(Some(""), c)
  {
  }

  /** Matching ignores letter case: summaries equal up to case, or lower-cased, give the same icon. */
  lemma IgnoresCase(a: string, b: string, c: int)
    requires EqualsIgnoreCase(a, b)
    ensures WeatherEmoji(Some(a), c) == WeatherEmoji(Some(b), c)
    ensures WeatherEmoji(Some(Lower(a)), c) == WeatherEmoji(Some(a), c)
  {
    LowerIdempotent(a);
  }

  /** At or below 0 degrees: snowflake exactly when "snow", "freez" or "ice" occurs, else cold face. */
  lemma FreezingOverride(summary: Option<string>, c: int)
    requires c <= 0
    ensures var s := Normalized(summary);
            WeatherEmoji(summary, c) == Snowflake
            <==> Contains(s, "snow") || Contains(s, "freez") || Contains(s, "ice")
  {
  }

  /** At 32 degrees or more: fire exactly when "scorch" or "swelter" occurs, else hot face. */
  lemma HeatOverride(summary: Option<string>, c: int)
    requires c >= 32
    ensures var s := Normalized(summary);
            WeatherEmoji(summary, c) == Fire <==> Contains(s, "scorch") || Contains(s, "swelter")
  {
  }

  /** No keyword rule matches `s`. */
  predicate NoKeyword(s: string) {
    KeywordEmoji(s).None?
  }

  /** The keyword rules match nothing exactly when none of their keywords occurs. */
  lemma NoKeywordIff(s: string)
    ensures NoKeyword(s)
            <==> !Contains(s, "storm") && !Contains(s, "thunder") && !Contains(s, "rain")
                 && !Contains(s, "shower") && !Contains(s, "chill") && !Contains(s, "cool")
                 && !Contains(s, "warm") && !Contains(s, "mild") && !Contains(s, "balmy")
                 && !Contains(s, "hot") && !Contains(s, "bracing") && !Contains(s, "scorch")
                 && !Contains(s, "freez")
  {
  }

  /**
   * Between 0 and 32 degrees each icon of the keyword rules is chosen exactly when one of its
   * keywords occurs and no keyword of an earlier rule does.
   */
  lemma FirstKeywordWins(summary: Option<string>, c: int)
    requires 0 < c < 32
    ensures var s, e := Normalized(summary), WeatherEmoji(summary, c);
            var storm := Contains(s, "storm") || Contains(s, "thunder");
            var rain := Contains(s, "rain") || Contains(s, "shower");
            var coat := Contains(s, "chill") || Contains(s, "cool");
            var sunCloud := Contains(s, "warm") || Contains(s, "mild") || Contains(s, "balmy");
            && (e == Storm <==> storm)
            && (e == Rain <==> !storm && rain)
            && (e == Coat <==> !storm && !rain && coat)
            && (e == SunCloud <==> !storm && !rain && !coat && sunCloud)
            && (e == Sun <==> !storm && !rain && !coat && !sunCloud && Contains(s, "hot"))
            && (e == Wind <==> !storm && !rain && !coat && !sunCloud && !Contains(s, "hot")
                               && Contains(s, "bracing"))
            && (e == Fire <==> !storm && !rain && !coat && !sunCloud && !Contains(s, "hot")
                               && !Contains(s, "bracing") && Contains(s, "scorch"))
            && (e == Snowflake <==> !storm && !rain && !coat && !sunCloud && !Contains(s, "hot")
                                    && !Contains(s, "bracing") && !Contains(s, "scorch")
                                    && Contains(s, "freez"))
  {
  }

  /** For example, a thundery rain between 0 and 32 degrees is a storm, not rain. */
  lemma ThunderBeatsRain(summary: Option<string>, c: int)
    requires 0 < c < 32
    requires Contains(Normalized(summary), "thunder") && Contains(Normalized(summary), "rain")
    ensures WeatherEmoji(summary, c) == Storm
  {
    FirstKeywordWins(summary, c);
  }

  /**
   * Between 0 and 32 degrees with no keyword: ice below 10, cloud below 20, sunny below 28,
   * thermometer from 28 on.
   */
  lemma TemperatureBands(summary: Option<string>, c: int)
    requires 0 < c < 32 && NoKeyword(Normalized(summary))
    ensures WeatherEmoji(summary, c) == Ice <==> c < 10
    ensures WeatherEmoji(summary, c) == Cloud <==> 10 <= c < 20
    ensures WeatherEmoji(summary, c) == Sunny <==> 20 <= c < 28
    ensures WeatherEmoji(summary, c) == Thermometer <==> 28 <= c
  {
  }

  /** `a` and `b` agree on every keyword except those at the positions in `skip`. */
  predicate AgreeExcept(a: string, b: string, skip: set<nat>) {
    forall i :: 0 <= i < |Keywords| && i !in skip ==> (Contains(a, Keywords[i]) <==> Contains(b, Keywords[i]))
  }

  /** The icon depends on the summary only through which keywords occur in it. */
  lemma OnlyKeywordsMatter(a: Option<string>, b: Option<string>, c: int)
    requires AgreeExcept(Normalized(a), Normalized(b), {})
    ensures WeatherEmoji(a, c) == WeatherEmoji(b, c)
  {
    var sa, sb := Normalized(a), Normalized(b);
    Agree(sa, sb, {});
    assert KeywordEmoji(sa) == KeywordEmoji(sb);
  }

  /** "swelter" (keyword 4) can change the icon only at 32 degrees or more. */
  lemma SwelterOnlyWhenHot(a: Option<string>, b: Option<string>, c: int)
    requires c < 32
    requires AgreeExcept(Normalized(a), Normalized(b), {4})
    ensures WeatherEmoji(a, c) == WeatherEmoji(b, c)
  {
    var sa, sb := Normalized(a), Normalized(b);
    Agree(sa, sb, {4});
    assert KeywordEmoji(sa) == KeywordEmoji(sb);
  }

  /** "snow" and "ice" (keywords 0 and 2) can change the icon only at or below 0 degrees. */
  lemma SnowAndIceOnlyWhenFreezing(a: Option<string>, b: Option<string>, c: int)
    requires c > 0
    requires AgreeExcept(Normalized(a), Normalized(b), {0, 2})
    ensures WeatherEmoji(a, c) == WeatherEmoji(b, c)
  {
    var sa, sb := Normalized(a), Normalized(b);
    if c < 32 {
      KeywordsIgnoreSnowAndIce(sa, sb);
    } else {
      Agree(sa, sb, {0, 2});
    }
  }

  /** The keyword rules never look at `snow` or `ice`. */
  lemma KeywordsIgnoreSnowAndIce(sa: string, sb: string)
    requires AgreeExcept(sa, sb, {0, 2})
    ensures KeywordEmoji(sa) == KeywordEmoji(sb)
  {
    Agree(sa, sb, {0, 2});
  }

  /** Unpacks `AgreeExcept` keyword by keyword. */
  lemma Agree(a: string, b: string, skip: set<nat>)
    requires AgreeExcept(a, b, skip)
    ensures 0 !in skip ==> (Contains(a, "snow") <==> Contains(b, "snow"))
    ensures 1 !in skip ==> (Contains(a, "freez") <==> Contains(b, "freez"))
    ensures 2 !in skip ==> (Contains(a, "ice") <==> Contains(b, "ice"))
    ensures 3 !in skip ==> (Contains(a, "scorch") <==> Contains(b, "scorch"))
    ensures 4 !in skip ==> (Contains(a, "swelter") <==> Contains(b, "swelter"))
    ensures 5 !in skip ==> (Contains(a, "storm") <==> Contains(b, "storm"))
    ensures 6 !in skip ==> (Contains(a, "thunder") <==> Contains(b, "thunder"))
    ensures 7 !in skip ==> (Contains(a, "rain") <==> Contains(b, "rain"))
    ensures 8 !in skip ==> (Contains(a, "shower") <==> Contains(b, "shower"))
    ensures 9 !in skip ==> (Contains(a, "chill") <==> Contains(b, "chill"))
    ensures 10 !in skip ==> (Contains(a, "cool") <==> Contains(b, "cool"))
    ensures 11 !in skip ==> (Contains(a, "warm") <==> Contains(b, "warm"))
    ensures 12 !in skip ==> (Contains(a, "mild") <==> Contains(b, "mild"))
    ensures 13 !in skip ==> (Contains(a, "balmy") <==> Contains(b, "balmy"))
    ensures 14 !in skip ==> (Contains(a, "hot") <==> Contains(b, "hot"))
    ensures 15 !in skip ==> (Contains(a, "bracing") <==> Contains(b, "bracing"))
  {
    var k := Keywords;
    assert k[0] == "snow" && k[1] == "freez" && k[2] == "ice" && k[3] == "scorch";
    assert k[4] == "swelter" && k[5] == "storm" && k[6] == "thunder" && k[7] == "rain";
    assert k[8] == "shower" && k[9] == "chill" && k[10] == "cool" && k[11] == "warm";
    assert k[12] == "mild" && k[13] == "balmy" && k[14] == "hot" && k[15] == "bracing";
  }
}
