# CACTI bandwidth pipeline: a verified model of its core helpers

The pipeline logs into a CACTI monitoring server, scrapes traffic graphs,
reads their numbers by OCR, cleans the resulting CSV files and serves
progress to a web UI. This project models, in Dafny, the parts of it that
decide behaviour without touching a browser, an OCR engine or a database:

- `Retry` (utils/retry.py): the `exponential_backoff` decorator and
  `retry_with_backoff`, which retry an operation with capped, optionally
  jittered exponential sleeps and end in `RetryExhausted`, and the three-state
  `CircuitBreaker` (CLOSED, OPEN, HALF_OPEN). The operation is a script of
  outcomes, `random.random()` is a sequence of draws, `time.time()` is an
  argument, and `time.sleep` appends to a returned list of sleeps.
- `Metrics` and `Exposition` (observability/metrics.py): counters, gauges
  and histograms as classes whose methods update their fields, the registry
  that creates them once per key, `_make_key`, and the text that
  `format_prometheus` produces, defined on a value snapshot of the registry.
  Python's `str(float)` is the parameter `fmt`.
- `Progress` (progress_tracker.py): the two progress dictionaries, their
  defaults, their resets and the partial updates the scraper and the OCR
  step merge into them.
- `Config` (config.py): the comma-separated list settings, the environment
  checks, the URL allowlist used against server-side request forgery,
  `validate_cacti_url` and `mask_sensitive`.
- `UnitConverter` (cleaning/unit_converter.py): `parse_bandwidth_value`
  with its four rules, the unit guess by magnitude, and the conversions
  between units through their factor to bits per second.
- `DataCleaner` (data_cleaner.py): the rule that turns a CSV number from
  100 to 999 (taken as Kbps) into Mbps.
- `Scraper` (scraping/scraper.py): `sanitize_filename` and the
  `retry_on_stale_element` decorator.

`Outcomes`, `Text` and `Ordering` are shared helpers: an outcome that returns
or raises, Python's `strip`, `split`, `join` and `lower` on strings, and
sorting under a strict total order.

## Model

| member | source | states |
|---|---|---|
| `Retry.ResolvePolicy` | utils/retry.py:56-60 | Each of max_attempts, base_delay, max_delay and exponential_base is Python's `argument or setting`: an argument that is None or zero falls back to its setting, so an explicit 0 attempts or 0 delay is never used; jitter is passed through. |
| `Retry.Attempts` | utils/retry.py:67 | `range(1, max_attempts + 1)` runs max_attempts times, and not at all for 0 or less. |
| `Retry.CappedDelay` | utils/retry.py:84 | The delay never exceeds max_delay or the uncapped `base * exp_base ** (attempt - 1)`, and equals one of the two. |
| `Retry.BackoffDelay` | utils/retry.py:83-88 | Without jitter the sleep is the capped delay; with jitter and a draw in [0, 1) it lies in [0.75 d, 1.25 d) around the capped delay d (for d > 0). |
| `Retry.Delays` | utils/retry.py:83-88 | The i-th sleep is the capped delay of attempt i+1, jittered with the i-th random draw when jitter is on. |
| `Retry.DelaysBounded` | utils/retry.py:84 | Without jitter no sleep exceeds max_delay. |
| `Retry.CappedDelayMonotone` | utils/retry.py:84 | With a base of at least 1 and a non-negative base delay, a later attempt never waits less than an earlier one. |
| `Retry.DelaysNonDecreasing` | utils/retry.py:83-84 | Under the same conditions the whole sleep sequence is non-decreasing. |
| `Retry.JitterBounds` | utils/retry.py:86-88 | With a draw in [0, 1) the jittered sleep lies in [0.75 d, 1.25 d) around the capped delay d. |
| `Retry.ExampleSleeps` | utils/retry.py:83-84 | Three attempts, base 1 s, cap 10 s, base 2, no jitter: the sleeps are 1 s and then 2 s. |
| `Retry.HookLog` | utils/retry.py:95-100 | on_retry is called after each failed attempt but the last, with the attempt number, the error and the delay about to be slept. |
| `Retry.RetryRun` | utils/retry.py:62-108 | The run relation between a policy, the operation's outcomes and what the wrapper returns; any run it admits makes at most max_attempts calls with one sleep between consecutive calls. |
| `Retry.RetryRunShape` | utils/retry.py:67-108 | A run makes at most max_attempts calls; a value is the last call's; an escaping error is the last call's and is not in `exceptions`; RetryExhausted comes only after max_attempts caught failures and carries the last of them; there is one sleep between consecutive calls and none after the last. |
| `Retry.NextDelay` | utils/retry.py:83-88 | The delay computed in the loop is exactly the capped, jittered backoff delay of that attempt. |
| `Retry.ExponentialBackoff` | utils/retry.py:62-108 | The wrapper returns, propagates or raises RetryExhausted exactly as the run specification says, sleeps the specified delays, and calls on_retry with the specified arguments whether or not the callback raises. |
| `Retry.RetryWithBackoff` | utils/retry.py:114-152 | The non-decorator form is the same run with the settings' exponential base, jitter on and no callback. |
| `Retry.Observe` | utils/retry.py:187-193 | Reading the state turns OPEN into HALF_OPEN exactly when a non-zero lock time is at least recovery_timeout old; counts and times are untouched. |
| `Retry.Cleared` | utils/retry.py:213-217 | A success, like a reset, leaves CLOSED with no failures and no lock time and keeps the last failure time. |
| `Retry.AfterFailure` | utils/retry.py:219-226 | A failure adds one to the count and stamps the failure time; at the threshold the breaker is OPEN with that lock time, below it nothing else changes. |
| `Retry.CallStep` | utils/retry.py:195-211 | A call fails fast, leaving the observed state, exactly when the state reads OPEN; otherwise a value is passed through and leaves CLOSED with no failures, an expected error is re-raised after one more failure stamped at the failure time, and any other error is re-raised with the breaker unchanged. |
| `Retry.ConsistentInitially` | utils/retry.py:182-185 | A new breaker is CLOSED with no failures and no lock time, which satisfies the breaker invariant. |
| `Retry.CallStepConsistent` | utils/retry.py:195-236 | Reading the state, a call and a reset all keep the invariant: CLOSED has no lock time and fewer failures than the threshold; OPEN and HALF_OPEN have a lock time and at least the threshold. |
| `Retry.FastFailChangesNothing` | utils/retry.py:197-203 | While the state reads OPEN a call raises the unavailable error, changes nothing and does not depend on the operation. |
| `Retry.HalfOpenFailureReopens` | utils/retry.py:209-226 | A caught failure in HALF_OPEN opens the breaker again and restarts the recovery window at the failure time. |
| `Retry.ZeroLockTimeNeverRecovers` | utils/retry.py:190-193 | A lock time of 0.0 is falsy, so such an OPEN breaker fails fast whatever the clock says. |
| `Retry.ConsecutiveFailuresOpen` | utils/retry.py:219-226 | From CLOSED with c failures, threshold - c consecutive caught failures open the breaker with exactly threshold failures and the last failure's lock time. |
| `Retry.ExampleTrip` | utils/retry.py:187-226 | Threshold 2 and recovery 60 s: two failures open it, a call 30 s later fails fast, a call 60 s after the trip goes through and its success closes the breaker while its failure re-opens it. |
| `Retry.CircuitBreaker.constructor` | utils/retry.py:172-185 | A new breaker keeps its threshold and timeout and starts CLOSED with no failures and no times. |
| `Retry.CircuitBreaker.State` | utils/retry.py:187-193 | The `state` property updates the fields as `Observe` does and returns the new state. |
| `Retry.CircuitBreaker.Call` | utils/retry.py:195-211 | `call` changes the fields and ends as one `CallStep` says, and invokes the operation exactly when the state read is not OPEN. |
| `Retry.CircuitBreaker.OnSuccess` | utils/retry.py:213-217 | `_on_success` updates the fields as `Cleared` does. |
| `Retry.CircuitBreaker.OnFailure` | utils/retry.py:219-230 | `_on_failure` updates the fields as `AfterFailure` does. |
| `Retry.CircuitBreaker.Reset` | utils/retry.py:232-236 | `reset` updates the fields as `Cleared` does. |
| `Metrics.Counter.constructor` | observability/metrics.py:26-33 | A counter keeps its name, help and labels and starts at 0. |
| `Metrics.Counter.Inc` | observability/metrics.py:35-37 | `inc` adds the amount to the value. |
| `Metrics.Gauge.constructor` | observability/metrics.py:44-51 | A gauge keeps its name, help and labels and starts at 0. |
| `Metrics.Gauge.Set` | observability/metrics.py:53-55 | `set` replaces the value. |
| `Metrics.Gauge.Inc` | observability/metrics.py:57-59 | `inc` adds the amount to the value. |
| `Metrics.Gauge.Dec` | observability/metrics.py:61-63 | `dec` subtracts the amount from the value. |
| `Metrics.Histogram.constructor` | observability/metrics.py:70-83 | A histogram starts with zero sum and count and a zero count for each boundary, consistent with no observations. |
| `Metrics.Histogram.Observe` | observability/metrics.py:85-91 | `observe` adds the value to the sum and one to the count, and adds one to every listed boundary at or above the value (once per listing), keeping each count equal to the number of observations at or below its boundary. |
| `Metrics.CountAtMostMonotone` | observability/metrics.py:89-91 | A larger boundary never counts fewer observations. |
| `Metrics.CumulativeBuckets` | observability/metrics.py:85-91 | With ascending distinct boundaries the bucket counts are cumulative: non-decreasing and never above the total count. |
| `Metrics.ExampleHistogram` | observability/metrics.py:75-91 | Observing 0.5, 3, 7 and 20 puts 1, 2, 3 and 4 observations at or below the boundaries 1, 5, 10 and +Inf, with a sum of 30.5. |
| `Metrics.MakeKeySorted` | observability/metrics.py:138-142 | The key is the bare name without labels, otherwise the name and its `k="v"` items in sorted order inside braces. |
| `Metrics.MakeKey` | observability/metrics.py:138-142 | The key starts with the name; it is the bare name exactly when there are no labels, and otherwise goes on with the labels inside `{` and `}`. |
| `Metrics.MakeKeyOrderIndependent` | observability/metrics.py:138-142 | Two label dictionaries with the same items give the same key, whatever their order. |
| `Metrics.MetricsRegistry.constructor` | observability/metrics.py:105-107 | A new registry holds no metrics. |
| `Metrics.MetricsRegistry.GetOrCreateCounter` | observability/metrics.py:109-115 | An existing key returns its metric, whatever its kind, and changes nothing; a new key stores and returns a fresh zero counter. |
| `Metrics.MetricsRegistry.GetOrCreateGauge` | observability/metrics.py:117-123 | The same for a gauge. |
| `Metrics.MetricsRegistry.GetOrCreateHistogram` | observability/metrics.py:125-136 | The same for a histogram; no boundaries means the default ones. |
| `Metrics.MetricsRegistry.SortedMetricKeys` | observability/metrics.py:149 | The registry's keys are visited once each, in ascending string order. |
| `Metrics.MetricsRegistry.ReadViews` | observability/metrics.py:149-150 | The metrics are read in ascending key order. |
| `Metrics.MetricsRegistry.FormatPrometheus` | observability/metrics.py:144-181 | The method produces exactly the exposition text of the registry's current contents. |
| `Metrics.RenderEntries` | observability/metrics.py:149-179 | The loop over the sorted metrics produces the specified lines in order. |
| `Metrics.EntryText` | observability/metrics.py:152-179 | One metric gives its header when its name is new, then its samples. |
| `Metrics.SampleText` | observability/metrics.py:168-179 | A counter or gauge gives one sample line; a histogram its bucket lines, `_sum` and `_count`. |
| `Metrics.BucketText` | observability/metrics.py:171-177 | A histogram gives one `_bucket` line per boundary, in ascending boundary order. |
| `Metrics.BucketLine` | observability/metrics.py:172-177 | One `_bucket` line: the labels with the closing brace removed, a comma when labels remain, `le="..."`, and the count. |
| `Exposition.BoundLessIsOrder` | observability/metrics.py:172 | Boundaries, with +Inf last, are sorted by a strict total order. |
| `Exposition.PairLessIsOrder` | observability/metrics.py:140 | Label items are sorted by a strict total order on (key, value). |
| `Exposition.AtMostMonotone` | observability/metrics.py:90 | A value at or below a boundary is at or below every larger one. |
| `Exposition.LabelItems` | observability/metrics.py:166 | Each label is rendered `k="v"`, in order. |
| `Exposition.LabelsText` | observability/metrics.py:164-166 | The label text is empty exactly when there are no labels, and braced otherwise. |
| `Exposition.StripTrailing` | observability/metrics.py:173 | `rstrip` removes every trailing copy of the character and nothing else. |
| `Exposition.BucketLabels` | observability/metrics.py:172-176 | Without labels the bucket label text is `{le="..."}`. |
| `Exposition.BucketLabelsWithLabels` | observability/metrics.py:172-176 | With labels the `le` label follows them, after a comma, inside one pair of braces. |
| `Exposition.BucketLines` | observability/metrics.py:172-177 | One `_bucket` sample per boundary, carrying that boundary's count. |
| `Exposition.SortedBoundsSpec` | observability/metrics.py:172 | Every boundary gets a bucket line, once, in strictly ascending order. |
| `Exposition.HistogramSampleLines` | observability/metrics.py:171-179 | A histogram renders its bucket lines, then `_sum`, then `_count`. |
| `Exposition.SortedKeys` | observability/metrics.py:149 | The keys are each listed once, in strictly ascending order. |
| `Exposition.Entries` | observability/metrics.py:149-150 | The i-th metric visited is the one under the i-th sorted key. |
| `Exposition.OneHelpPerName` | observability/metrics.py:152-161 | Each metric name gets exactly one HELP line, and no other name gets one. |
| `Exposition.HelpOfFirstOccurrence` | observability/metrics.py:152-154 | The HELP text shown for a name is that of the first metric with that name in key order. |
| `Exposition.TypeFollowsHelp` | observability/metrics.py:153-160 | Every HELP line is immediately followed by the TYPE line of the same name. |
| `Exposition.EndsWithOneNewline` | observability/metrics.py:181 | The text ends in exactly one newline when the number format writes none at its end. |
| `Exposition.Output` | observability/metrics.py:144-181 | The text always ends in a newline, and an empty registry renders as a lone newline. |
| `Exposition.UnlabelledCounterText` | observability/metrics.py:149-181 | A registry holding one unlabelled counter renders as its HELP, TYPE and sample lines. |
| `Progress.Merge` | progress_tracker.py:30-38 | `dict.update`: changed keys take the new values, other keys keep theirs, none disappears. |
| `Progress.MergeIdempotent` | progress_tracker.py:28-53 | Applying the same update twice is applying it once, so a second reset changes nothing. |
| `Progress.ResetForgetsDefaultKeys` | progress_tracker.py:28-48 | A reset wipes out any earlier update that only touched default keys. |
| `Progress.DefaultsAreReset` | progress_tracker.py:10-48 | A new tracker is already in its reset state. |
| `Progress.ScrapingResetState` | progress_tracker.py:28-38 | After a scraping reset the seven defaults hold and every other key keeps its value. |
| `Progress.ScraperReport` | scraping/scraper.py:360-366 | The scraper's per-username report sets current, total, status running and current_file. |
| `Progress.ReportedFileSurvivesReset` | scraping/scraper.py:360-366 | current_file, which the scraper writes but the scraping defaults lack, survives a scraping reset while current and status go back. |
| `Progress.ProgressTracker.constructor` | progress_tracker.py:10-26 | A new tracker holds the seven scraping and five OCR defaults. |
| `Progress.ProgressTracker.ResetScraping` | progress_tracker.py:28-38 | Merges the scraping defaults; the OCR section is untouched. |
| `Progress.ProgressTracker.ResetOcr` | progress_tracker.py:40-48 | Merges the OCR defaults; the scraping section is untouched. |
| `Progress.ProgressTracker.ResetAll` | progress_tracker.py:50-53 | Both resets, each on its own section. |
| `Progress.ProgressTracker.UpdateScraping` | scraping/scraper.py:360-366 | A partial update of the scraping section only. |
| `Progress.ProgressTracker.UpdateOcr` | easyocr_image_to_text.py:219-225 | A partial update of the OCR section only. |
| `Config.ParseList` | config.py:122-135 | Every entry is non-empty, stripped and free of commas. |
| `Config.ParseListConcat` | config.py:125 | Entries keep their input order: a comma splits the parse into the two sides' parses. |
| `Config.ParseListSingle` | config.py:125 | A text without a comma is one stripped entry, or none when blank. |
| `Config.ParseListJoin` | config.py:125 | Parsing comma-joined entries gives them stripped, blank ones dropped. |
| `Config.ParseListRoundTrip` | config.py:122-135 | Non-empty, stripped, comma-free entries survive a join and a parse unchanged. |
| `Config.AllowedUrlsList` | config.py:123-125 | Every entry of CACTI_ALLOWED_URLS is non-empty, stripped and comma-free; a setting without a comma is its stripped self, or no entry when blank. |
| `Config.CorsOriginsList` | config.py:128-130 | The same for CORS_ORIGINS. |
| `Config.OcrLanguagesList` | config.py:133-135 | The same for OCR_LANGUAGES. |
| `Config.IsProduction` | config.py:138-140 | ENV is production exactly when it has ten characters that lower-case to `production`. |
| `Config.IsDevelopment` | config.py:143-145 | ENV is development exactly when it has eleven characters that lower-case to `development`. |
| `Config.EnvironmentExclusive` | config.py:137-145 | An environment is never both production and development. |
| `Config.ProductionAnyCase` | config.py:138-140 | The production check ignores letter case: any spelling of `production` in upper and lower case letters is production. |
| `Config.DevelopmentAnyCase` | config.py:143-145 | Any spelling of `development` in upper and lower case letters is development. |
| `Config.AnyPrefix` | config.py:154 | True exactly when the URL starts with some entry. |
| `Config.ValidateUrl` | config.py:150-154 | An empty allowlist allows everything; otherwise a URL is allowed exactly when it starts with an entry. |
| `Config.ValidateUrlExtends` | config.py:150-154 | Anything appended to an allowed URL is allowed too: the check is a prefix test. |
| `Config.SingleEntryAllowlist` | config.py:150-154 | One entry allows exactly the URLs that start with it. |
| `Config.ValidateUrlExamples` | tests/test_config.py:8-16 | With allowlist `http://test.example.com/` the two test URLs under it pass and the two other hosts fail. |
| `Config.ValidateCactiUrl` | config.py:176-193 | Valid exactly when non-empty, http or https, and allowed; the message is empty exactly when valid, and names the first check that failed. |
| `Config.PrefixSlice` | config.py:200 | Python's `s[:n]`, including a negative n counting from the end. |
| `Config.Stars` | config.py:200 | `"*" * n`: n stars, none for n at most 0. |
| `Config.MaskSensitive` | config.py:196-200 | Empty or short values become `***`; otherwise the first visible characters are kept and every other one is a star. |
| `Config.MaskHidesTheRest` | config.py:196-200 | The mask depends only on the length and the visible prefix. |
| `Config.MaskNegativeVisible` | config.py:196-200 | A negative visible count makes the mask longer than the value. |
| `UnitConverter.UnitToBps` | cleaning/unit_converter.py:49-54 | Every known unit has a factor of at least 1 to bits per second. |
| `UnitConverter.UnitToBpsSteps` | cleaning/unit_converter.py:49-54 | Each unit is a thousand of the one below. |
| `UnitConverter.UnitWord` | cleaning/unit_converter.py:75-81 | Only words that lower-case to a unit word name a unit, and that unit is never unknown. |
| `UnitConverter.UnitWordNames` | cleaning/unit_converter.py:75-81 | A word names a unit exactly when it lower-cases to `bps`, `kbps`, `mbps` or `gbps`, and names bps, Kbps, Mbps or Gbps respectively. |
| `UnitConverter.LetterUnit` | cleaning/unit_converter.py:108-113 | Only `k`, `m` and `g` name a unit: Kbps, Mbps and Gbps respectively. |
| `UnitConverter.ParseFloat` | cleaning/unit_converter.py:78 | `float()` on digits and dots never gives a negative number. |
| `UnitConverter.ParseFloatAccepts` | cleaning/unit_converter.py:78 | `float()` accepts a run of digits and dots exactly when it has a digit and at most one dot. |
| `UnitConverter.ParseFloatNat` | cleaning/unit_converter.py:98 | A decimal integer reads back as itself. |
| `UnitConverter.ParseFloatParts` | cleaning/unit_converter.py:98 | `w.f` reads as the whole part plus the fraction scaled by its digit count. |
| `UnitConverter.ParseFloatDecimal` | cleaning/unit_converter.py:98 | `float(str(a) + "." + str(b))` is a plus b over ten to the number of digits of b. |
| `UnitConverter.DetectUnitByMagnitude` | cleaning/unit_converter.py:121-142 | Below 100 Mbps, from 100 to below a million Kbps, from a million bps; the confidence is 0.7 below 1, 0.6 from 1 to below 100, 0.75 from 100 to below 1000, 0.9 from 1000 to below a million and 0.8 from a million. |
| `UnitConverter.MagnitudeMonotone` | cleaning/unit_converter.py:133-142 | A larger number is never guessed to be in a larger unit. |
| `UnitConverter.Read` | cleaning/unit_converter.py:78-116 | Once a number is found, the reading is well formed with a known unit, or `float()` raises on exactly that number. |
| `UnitConverter.ParseText` | cleaning/unit_converter.py:70-118 | The four rules give a well-formed reading of the stripped text, or a ValueError on a run of digits and dots that `float()` rejects. |
| `UnitConverter.SearchText` | cleaning/unit_converter.py:103-118 | The fallback gives a well-formed reading, unknown only when the text has no digit or dot. |
| `UnitConverter.ReadFound` | cleaning/unit_converter.py:105-116 | Once the fallback has found its number, the reading has a known unit or `float()` raises on that number. |
| `UnitConverter.UnknownWithoutNumber` | cleaning/unit_converter.py:103-118 | The unit is unknown exactly when the text holds no digit and no dot. |
| `UnitConverter.ParseBandwidth` | cleaning/unit_converter.py:57-118 | None, `""` and `N/A` give an unknown 0 with confidence 0; anything else is stripped and read by the rules; every reading is well formed. |
| `UnitConverter.ExplicitUnitReading` | cleaning/unit_converter.py:75-82 | A number, blanks and a unit word in any case are read in that unit with confidence 1. |
| `UnitConverter.ShortSuffixReading` | cleaning/unit_converter.py:86-92 | A number, blanks and one of k, M, G in either case are read in that unit with confidence 0.95. |
| `UnitConverter.PlainNumberReading` | cleaning/unit_converter.py:95-100 | A bare number is read in the unit its magnitude suggests, with that confidence. |
| `UnitConverter.MalformedNumberRaises` | cleaning/unit_converter.py:95-100 | A bare run of digits and dots that `float()` rejects raises ValueError. |
| `UnitConverter.LetterAfterNumberReading` | cleaning/unit_converter.py:103-113 | With text before the number, a k, m or g starting the rest gives that unit with confidence 0.85. |
| `UnitConverter.MixedTextReading` | cleaning/unit_converter.py:103-116 | Otherwise the magnitude guess is used at four fifths of its confidence. |
| `UnitConverter.LeadingNumberFallback` | cleaning/unit_converter.py:75-105 | A text that starts with its number but goes on with something other than a unit word or a lone unit letter (`150 kbit`, `1.5 Mb/s`) passes the anchored rules and reaches the fallback, which finds that same number. |
| `UnitConverter.LeadingNumberLetterReading` | cleaning/unit_converter.py:103-113 | There a k, m or g starting the rest gives that unit with confidence 0.85 (`20 Mbps total` is 20 Mbps). |
| `UnitConverter.LeadingNumberMixedReading` | cleaning/unit_converter.py:103-116 | Otherwise the magnitude guess is used at four fifths of its confidence. |
| `UnitConverter.ConvertToUnit` | cleaning/unit_converter.py:145-163 | An unknown unit on either side returns the value; otherwise the result in the target unit stands for the same number of bits per second. |
| `UnitConverter.ConvertToSameUnit` | cleaning/unit_converter.py:156-163 | Converting to the unit a value is already in changes nothing. |
| `UnitConverter.ConvertRoundTrip` | cleaning/unit_converter.py:156-163 | Converting to another unit and back gives the value back. |
| `UnitConverter.ConvertCompose` | cleaning/unit_converter.py:156-163 | Converting through an intermediate unit is converting directly. |
| `UnitConverter.KbpsMbpsFactor` | cleaning/unit_converter.py:156-163 | Kbps to Mbps divides by a thousand; Mbps to Kbps multiplies by a thousand. |
| `UnitConverter.Rate` | cleaning/unit_converter.py:176-179 | A parse error propagates; an unknown unit gives 0; otherwise the rate stands for the reading's bits per second. |
| `UnitConverter.RateNonNegative` | cleaning/unit_converter.py:176-179 | A rate from a well-formed reading is never negative. |
| `UnitConverter.ToMbps` | cleaning/unit_converter.py:166-179 | Raises exactly when parsing raises, with the same error; an unknown unit gives 0; otherwise a million times the result is the reading's bits per second. |
| `UnitConverter.ToKbps` | cleaning/unit_converter.py:182-195 | The same with a thousand bits per second to the unit. |
| `UnitConverter.KbpsIsThousandMbps` | cleaning/unit_converter.py:166-195 | `convert_value_to_kbps` raises exactly when `convert_value_to_mbps` does, and otherwise returns a thousand times its value. |
| `UnitConverter.ConvertedNonNegative` | cleaning/unit_converter.py:166-195 | Neither conversion returns a negative number. |
| `UnitConverter.MissingConvertsToZero` | cleaning/unit_converter.py:176-178 | None, `""` and `N/A` convert to 0 in both units. |
| `UnitConverter.KiloSuffixToMbps` | cleaning/unit_converter.py:166-179 | A number with a k suffix converts to a thousandth of itself in Mbps. |
| `UnitConverter.KbpsRateInMbps` | cleaning/unit_converter.py:176-179 | A Kbps reading is a thousandth of itself in Mbps. |
| `DataCleaner.ConvertKbpsToMbps` | data_cleaner.py:18-28 | A number from 100 to 999 becomes a float a thousandth of it, between 0.1 and 0.999; every other cell is returned unchanged. |
| `DataCleaner.ConvertIdempotent` | data_cleaner.py:24-26 | Cleaning a cleaned cell changes nothing. |
| `DataCleaner.AgreesWithUnitConverter` | data_cleaner.py:24-25 | The rule gives what the unit converter gives for the same number read as Kbps and converted to Mbps. |
| `DataCleaner.ConvertExamples` | tests/test_data_cleaner.py:15-46 | The unit tests' cases: 100, 500, 999 and 150.5 convert; 0, 50, 99, 1000, 5000, text and None pass through. |
| `Scraper.ReplaceForbidden` | scraping/scraper.py:86 | Each forbidden character (slash, colon, star, question mark, double quote, angle brackets, vertical bar) becomes `_`; every other character, a backslash included, stays in place. |
| `Scraper.SanitizeFilename` | scraping/scraper.py:84-88 | The name is at most 255 characters, holds no forbidden character, and keeps every allowed character in place. |
| `Scraper.SanitizeIdempotent` | scraping/scraper.py:84-88 | Sanitizing a sanitized name changes nothing. |
| `Scraper.SanitizeMergesForbidden` | scraping/scraper.py:86 | Titles that differ only in which forbidden characters they hold get the same name. |
| `Scraper.Tries` | scraping/scraper.py:196 | The loop makes max_retries tries, none when that is 0 or less. |
| `Scraper.RetryOnStaleElement` | scraping/scraper.py:192-205 | Stops at the first call that is not a stale element: its value is returned or its error propagates; every stale failure is followed by one pause; after max_retries stale failures the generic error is raised. |

## Left out

- Binary floating point: every `float` is an exact real, so rounding in a sleep, a converted rate or a histogram sum is not modelled (the repository's own test of 150.5 compares its result with a tolerance for this reason).
- Python's `str(float)` is the parameter `fmt` of the exposition text; `EndsWithOneNewline` assumes only that it writes no trailing newline. A counter's value therefore renders as `fmt(5.0)`, which Python writes `5.0`, not `5`.
- Letter case and digits are ASCII only: `str.lower`, `re.IGNORECASE` and `\d` on non-ASCII characters (and `float()` on non-ASCII digits) are not modelled.
- Locks and threads: every method runs as one atomic step; the double-checked locking in the registry is not modelled.
- Clocks, randomness and sleeping are inputs and outputs (`now`, `failedAt`, `draws`, `sleeps`). The `ValueError` that `time.sleep` raises on a negative delay is not modelled.
- Values and bucket boundaries passed as Python ints are written by `str(int)` (`1`, not `1.0`), as with the integer boundaries of the pre-defined duration histogram (observability/metrics.py:210) and `app_info.set(1)` (observability/metrics.py:246); the model writes every number through the one `fmt`.
- `_on_failure` reads the clock twice (utils/retry.py:222 and 226), so the lock time may be a moment later than the last failure time; the model stamps both with one `failedAt`. The last failure time is never read, so no decision depends on the difference.
- Logging (`logger.warning`, `logger.error`, `logger.debug`) is left out; it does not change any result.
- The exception classes are reduced to a predicate on errors (`retryable`, `expected`, `isStale`); the messages of `RetryExhausted` and of the circuit breaker's `RuntimeError` are not modelled, only their cause and `last_exception`.
- Wrapped operations are given by their outcomes in advance; the arguments passed through `*args` and `**kwargs` are not modelled.
- `track_duration`, the Flask blueprint and the pre-defined metrics of observability/metrics.py are not modelled; they are I/O around the registry.
- `format_bandwidth` and the pandas wrappers (`process_csv` and the DataFrame cleaning around `_convert_kbps_to_mbps`) are not modelled; they format or move data without deciding anything.
- Loading settings from the environment and `.env` through pydantic is not modelled; settings values are inputs.
- The browser automation, OCR, database and notification code is outside this model.
