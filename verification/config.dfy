/** The helper properties and checks of the settings object: comma-separated
    lists, the environment name, the URL allowlist (the guard against
    server-side request forgery) and the masking of secrets for logs. The
    settings values themselves, read from the environment and a `.env` file,
    are plain inputs here. */
module Config {
  import opened Text

  /** The four settings the helpers read. */
  datatype Settings = Settings(env: string, allowedUrls: string, corsOrigins: string, ocrLanguages: string)

  /** The values a settings object has when the environment sets none of
      them. */
  const DefaultSettings := Settings("development", "", "http://localhost:5000,http://127.0.0.1:5000", "en")

  /** The stripped parts, with the parts that strip to nothing dropped. */
  function CleanParts(parts: seq<string>): (r: seq<string>)
    ensures |r| <= |parts|
    ensures forall i :: 0 <= i < |r| ==> r[i] != "" && IsStripped(r[i])
  {
    if parts == [] then [] else Kept(parts[0]) + CleanParts(parts[1..])
  }

  /** One part stripped, or nothing when it strips to nothing. */
  function Kept(p: string): (r: seq<string>)
    ensures |r| <= 1
    ensures forall i :: 0 <= i < |r| ==> r[i] != "" && IsStripped(r[i])
  {
    var s := Strip(p);
    if s != "" then [s] else []
  }

  /** `[p.strip() for p in raw.split(",") if p.strip()]`. */
  function ParseList(raw: string): (r: seq<string>)
    ensures forall i :: 0 <= i < |r| ==> r[i] != "" && IsStripped(r[i]) && ',' !in r[i]
  {
    var parts := Split(raw, ',');
    var r := CleanParts(parts);
    CleanPartsKeep(parts, ',');
    r
  }

  /** Stripping never brings in a character the part did not hold. */
  lemma StripKeeps(p: string, c: char)
    requires c !in p
    ensures c !in Strip(p)
  {
    var s := StripStart(p);
    assert s == p[|p| - |s|..];
    var t := StripEnd(s);
    assert t == s[..|t|];
  }

  lemma {:induction false} CleanPartsKeep(parts: seq<string>, c: char)
    requires forall i :: 0 <= i < |parts| ==> c !in parts[i]
    ensures forall i :: 0 <= i < |CleanParts(parts)| ==> c !in CleanParts(parts)[i]
  {
    if parts != [] {
      StripKeeps(parts[0], c);
      CleanPartsKeep(parts[1..], c);
    }
  }

  lemma {:induction false} CleanPartsAppend(x: seq<string>, y: seq<string>)
    ensures CleanParts(x + y) == CleanParts(x) + CleanParts(y)
  {
    if x == [] {
      assert x + y == y;
    } else {
      assert (x + y)[0] == x[0];
      assert (x + y)[1..] == x[1..] + y;
      CleanPartsAppend(x[1..], y);
      AppendAssoc(Kept(x[0]), CleanParts(x[1..]), CleanParts(y));
    }
  }

  lemma AppendAssoc(a: seq<string>, b: seq<string>, c: seq<string>)
    ensures a + (b + c) == (a + b) + c
  {
  }

  /** A list with a comma in it parses as the two sides parsed one after the
      other: entries keep their input order. */
  lemma ParseListConcat(a: string, b: string)
    ensures ParseList(a + "," + b) == ParseList(a) + ParseList(b)
  {
    SplitConcat(a, b, ',');
    CleanPartsAppend(Split(a, ','), Split(b, ','));
  }

  /** A text with no comma is one entry, or none when it is blank. */
  lemma ParseListSingle(s: string)
    requires ',' !in s
    ensures ParseList(s) == if Strip(s) == "" then [] else [Strip(s)]
  {
    SplitNoSeparator(s, ',');
  }

  /** Parsing the comma-join of entries that hold no comma gives the entries
      stripped, blank ones dropped. */
  lemma {:induction false} ParseListJoin(items: seq<string>)
    requires forall i :: 0 <= i < |items| ==> ',' !in items[i]
    ensures ParseList(Join(items, ",")) == CleanParts(items)
  {
    if |items| == 0 {
      assert Split("", ',') == [""];
      assert Strip("") == "";
    } else if |items| == 1 {
      ParseListSingle(items[0]);
    } else {
      ParseListConcat(items[0], Join(items[1..], ","));
      ParseListSingle(items[0]);
      ParseListJoin(items[1..]);
    }
  }

  /** Entries that are non-empty, stripped and free of commas survive a
      join and a parse unchanged. */
  lemma {:induction false} ParseListRoundTrip(items: seq<string>)
    requires forall i :: 0 <= i < |items| ==> items[i] != "" && IsStripped(items[i]) && ',' !in items[i]
    ensures ParseList(Join(items, ",")) == items
  {
    ParseListJoin(items);
    CleanClean(items);
  }

  lemma {:induction false} CleanClean(items: seq<string>)
    requires forall i :: 0 <= i < |items| ==> items[i] != "" && IsStripped(items[i])
    ensures CleanParts(items) == items
  {
    if items != [] {
      StripStripped(items[0]);
      CleanClean(items[1..]);
    }
  }

  /** `allowed_urls_list`: clean entries, and a setting without a comma is a
      single entry (or none when blank). */
  function AllowedUrlsList(s: Settings): (r: seq<string>)
    ensures forall i :: 0 <= i < |r| ==> r[i] != "" && IsStripped(r[i]) && ',' !in r[i]
    ensures ',' !in s.allowedUrls ==> r == if Strip(s.allowedUrls) == "" then [] else [Strip(s.allowedUrls)]
  {
    if ',' !in s.allowedUrls then ParseListSingle(s.allowedUrls); ParseList(s.allowedUrls)
    else ParseList(s.allowedUrls)
  }

  /** `cors_origins_list`: clean entries, and a setting without a comma is a
      single entry (or none when blank). */
  function CorsOriginsList(s: Settings): (r: seq<string>)
    ensures forall i :: 0 <= i < |r| ==> r[i] != "" && IsStripped(r[i]) && ',' !in r[i]
    ensures ',' !in s.corsOrigins ==> r == if Strip(s.corsOrigins) == "" then [] else [Strip(s.corsOrigins)]
  {
    if ',' !in s.corsOrigins then ParseListSingle(s.corsOrigins); ParseList(s.corsOrigins)
    else ParseList(s.corsOrigins)
  }

  /** `ocr_languages_list`: clean entries, and a setting without a comma is a
      single entry (or none when blank). */
  function OcrLanguagesList(s: Settings): (r: seq<string>)
    ensures forall i :: 0 <= i < |r| ==> r[i] != "" && IsStripped(r[i]) && ',' !in r[i]
    ensures ',' !in s.ocrLanguages ==> r == if Strip(s.ocrLanguages) == "" then [] else [Strip(s.ocrLanguages)]
  {
    if ',' !in s.ocrLanguages then ParseListSingle(s.ocrLanguages); ParseList(s.ocrLanguages)
    else ParseList(s.ocrLanguages)
  }

  /** `ENV.lower() == "production"`. */
  predicate IsProduction(s: Settings)
    ensures IsProduction(s) <==> |s.env| == 10 && forall i :: 0 <= i < 10 ==> LowerChar(s.env[i]) == "production"[i]
  {
    Lower(s.env) == "production"
  }

  /** `ENV.lower() == "development"`. */
  predicate IsDevelopment(s: Settings)
    ensures IsDevelopment(s) <==> |s.env| == 11 && forall i :: 0 <= i < 11 ==> LowerChar(s.env[i]) == "development"[i]
  {
    Lower(s.env) == "development"
  }

  /** The two environment checks never both hold. */
  lemma EnvironmentExclusive(s: Settings)
    ensures !(IsProduction(s) && IsDevelopment(s))
  {
    assert "production"[0] != "development"[0];
  }

  /** Lower-casing maps `s` to `t` when it maps each character of `s` to the
      character of `t` at the same place. */
  lemma LowerIs(s: string, t: string)
    requires |s| == |t| && forall i :: 0 <= i < |s| ==> LowerChar(s[i]) == t[i]
    ensures Lower(s) == t
  {
  }

  /** The check ignores letter case: any spelling of `production` in upper
      and lower case letters (`PRODUCTION`, `Production`) is production. */
  lemma ProductionAnyCase(s: Settings)
    requires |s.env| == 10 && forall i :: 0 <= i < 10 ==> LowerChar(s.env[i]) == "production"[i]
    ensures IsProduction(s)
  {
    LowerIs(s.env, "production");
  }

  /** Likewise any spelling of `development` is development. */
  lemma DevelopmentAnyCase(s: Settings)
    requires |s.env| == 11 && forall i :: 0 <= i < 11 ==> LowerChar(s.env[i]) == "development"[i]
    ensures IsDevelopment(s)
  {
    LowerIs(s.env, "development");
  }

  /** `any(url.startswith(a) for a in allowed)`. */
  function AnyPrefix(url: string, allowed: seq<string>): (r: bool)
    ensures r <==> exists i :: 0 <= i < |allowed| && StartsWith(url, allowed[i])
  {
    if allowed == [] then false
    else StartsWith(url, allowed[0]) || AnyPrefix(url, allowed[1..])
  }

  /** `validate_url`: no allowlist allows every URL; otherwise a URL is
      allowed exactly when it starts with an allowlist entry. */
  function ValidateUrl(s: Settings, url: string): (r: bool)
    ensures AllowedUrlsList(s) == [] ==> r
    ensures AllowedUrlsList(s) != [] ==>
      (r <==> exists i :: 0 <= i < |AllowedUrlsList(s)| && StartsWith(url, AllowedUrlsList(s)[i]))
  {
    var allowed := AllowedUrlsList(s);
    allowed == [] || AnyPrefix(url, allowed)
  }

  /** The allowlist is a prefix test: whatever follows an allowed prefix is
      allowed too, including a host name that merely begins with an allowed
      entry that has no trailing slash. */
  lemma ValidateUrlExtends(s: Settings, url: string, more: string)
    requires ValidateUrl(s, url)
    ensures ValidateUrl(s, url + more)
  {
    if AllowedUrlsList(s) != [] {
      var i :| 0 <= i < |AllowedUrlsList(s)| && StartsWith(url, AllowedUrlsList(s)[i]);
      assert (url + more)[..|AllowedUrlsList(s)[i]|] == url[..|AllowedUrlsList(s)[i]|];
    }
  }

  /** A single allowlist entry allows exactly the URLs that start with it. */
  lemma SingleEntryAllowlist(s: Settings, entry: string, url: string)
    requires AllowedUrlsList(s) == [entry]
    ensures ValidateUrl(s, url) <==> StartsWith(url, entry)
  {
  }

  /** With the allowlist `http://test.example.com/`, URLs under that prefix
      pass and other hosts do not. */
  lemma ValidateUrlExamples(s: Settings)
    requires AllowedUrlsList(s) == ["http://test.example.com/"]
    ensures ValidateUrl(s, "http://test.example.com/")
    ensures ValidateUrl(s, "http://test.example.com/graph.php")
    ensures !ValidateUrl(s, "http://malicious.com/")
    ensures !ValidateUrl(s, "http://other.example.com/")
  {
    var p := "http://test.example.com/";
    SingleEntryAllowlist(s, p, p);
    SingleEntryAllowlist(s, p, "http://test.example.com/graph.php");
    SingleEntryAllowlist(s, p, "http://malicious.com/");
    SingleEntryAllowlist(s, p, "http://other.example.com/");
    TestPrefixes();
  }

  lemma TestPrefixes()
    ensures StartsWith("http://test.example.com/", "http://test.example.com/")
    ensures StartsWith("http://test.example.com/graph.php", "http://test.example.com/")
    ensures !StartsWith("http://malicious.com/", "http://test.example.com/")
    ensures !StartsWith("http://other.example.com/", "http://test.example.com/")
  {
    assert "http://test.example.com/graph.php"[..24] == "http://test.example.com/";
    assert "http://malicious.com/"[7] != "http://test.example.com/"[7];
    assert "http://other.example.com/"[7] != "http://test.example.com/"[7];
  }

  /** The result of `validate_cacti_url`: a verdict and an error message. */
  datatype Verdict = Verdict(valid: bool, message: string)

  /** `validate_cacti_url`, with the settings passed in instead of read from
      the module-level instance. */
  function ValidateCactiUrl(s: Settings, url: string): (r: Verdict)
    ensures r.valid <==> url != "" && (StartsWith(url, "http://") || StartsWith(url, "https://")) && ValidateUrl(s, url)
    ensures r.valid <==> r.message == ""
    ensures url == "" ==> r.message == "URL cannot be empty"
    ensures url != "" && !StartsWith(url, "http://") && !StartsWith(url, "https://") ==>
      r.message == "URL must start with http:// or https://"
    ensures url != "" && (StartsWith(url, "http://") || StartsWith(url, "https://")) && !ValidateUrl(s, url) ==>
      r.message == "URL not in allowed list. Allowed: " + Join(AllowedUrlsList(s), ", ")
  {
    if url == "" then Verdict(false, "URL cannot be empty")
    else if !(StartsWith(url, "http://") || StartsWith(url, "https://")) then
      Verdict(false, "URL must start with http:// or https://")
    else if !ValidateUrl(s, url) then
      Verdict(false, "URL not in allowed list. Allowed: " + Join(AllowedUrlsList(s), ", "))
    else Verdict(true, "")
  }

  /** The number of characters `mask_sensitive` shows when none is given. */
  const DefaultVisibleChars := 4

  /** `s[:n]` with Python's slice rules: a negative end counts from the end of
      the string, and an end past either side is clamped. */
  function PrefixSlice(s: string, n: int): (r: string)
    ensures n >= 0 ==> r == s[..if n < |s| then n else |s|]
    ensures n < 0 ==> r == s[..if |s| + n > 0 then |s| + n else 0]
  {
    if n >= 0 then (if n < |s| then s[..n] else s)
    else if |s| + n > 0 then s[..|s| + n]
    else []
  }

  /** `"*" * n`. */
  function Stars(n: int): (r: string)
    ensures |r| == if n > 0 then n else 0
    ensures forall i :: 0 <= i < |r| ==> r[i] == '*'
    decreases n
  {
    if n <= 0 then [] else Stars(n - 1) + "*"
  }

  /** `mask_sensitive(value, visible_chars)`. */
  function MaskSensitive(value: string, visible: int): (r: string)
    ensures value == "" || |value| <= visible ==> r == "***"
    ensures value != "" && |value| > visible && visible >= 0 ==>
      && |r| == |value|
      && r[..visible] == value[..visible]
      && forall i :: visible <= i < |r| ==> r[i] == '*'
    ensures value != "" && |value| > visible && visible < 0 ==>
      r == PrefixSlice(value, visible) + Stars(|value| - visible)
  {
    if value == "" || |value| <= visible then "***"
    else PrefixSlice(value, visible) + Stars(|value| - visible)
  }

  /** A masked value shows nothing past its first `visible` characters: two
      secrets of the same length that agree there mask to the same text. */
  lemma MaskHidesTheRest(a: string, b: string, visible: nat)
    requires |a| == |b| && a[..if visible < |a| then visible else |a|] == b[..if visible < |b| then visible else |b|]
    ensures MaskSensitive(a, visible) == MaskSensitive(b, visible)
  {
    if a != "" && |a| > visible {
      var ra, rb := MaskSensitive(a, visible), MaskSensitive(b, visible);
      assert |ra| == |rb|;
      forall i | 0 <= i < |ra| ensures ra[i] == rb[i] {
        if i < visible {
          assert ra[i] == ra[..visible][i] == a[..visible][i];
          assert rb[i] == rb[..visible][i] == b[..visible][i];
        }
      }
    }
  }

  /** A negative `visible_chars` slices from the end: the result keeps all
      but the last |visible| characters and then adds more stars than the
      value has characters, so it is longer than the value. */
  lemma MaskNegativeVisible(value: string, visible: int)
    requires value != "" && visible < 0
    ensures |MaskSensitive(value, visible)| > |value|
  {
  }
}
