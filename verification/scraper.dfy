/** The two scraper helpers that do not drive the browser: turning a graph
    title into a file name, and retrying an action whose page element went
    stale while the page was redrawn. */
module Scraper {
  import opened Text
  import opened Outcomes

  // ---------------------------------------------------------------------
  // `sanitize_filename`.

  /** The longest file name the scraper writes. */
  const MaxFilenameLength := 255

  /** The characters of `[\/:*?"<>|]`: `\/` inside the class is an escaped
      slash, so a backslash is not one of them. */
  predicate IsForbidden(c: char)
  {
    c == '/' || c == ':' || c == '*' || c == '?' || c == '"' || c == '<' || c == '>' || c == '|'
  }

  /** `re.sub(r'[\/:*?"<>|]', '_', title)`. */
  function ReplaceForbidden(title: string): (r: string)
    ensures |r| == |title|
    ensures forall i :: 0 <= i < |r| ==> r[i] == if IsForbidden(title[i]) then '_' else title[i]
  {
    if title == [] then []
    else [if IsForbidden(title[0]) then '_' else title[0]] + ReplaceForbidden(title[1..])
  }

  /** `sanitize_filename`: every forbidden character becomes `_`, every
      other character (a backslash included) stays where it was, and the
      result is cut to 255 characters. */
  function SanitizeFilename(title: string): (r: string)
    ensures |r| == if |title| < MaxFilenameLength then |title| else MaxFilenameLength
    ensures forall i :: 0 <= i < |r| ==> !IsForbidden(r[i])
    ensures forall i :: 0 <= i < |r| && !IsForbidden(title[i]) ==> r[i] == title[i]
    ensures forall i :: 0 <= i < |r| && IsForbidden(title[i]) ==> r[i] == '_'
  {
    var replaced := ReplaceForbidden(title);
    if |replaced| <= MaxFilenameLength then replaced else replaced[..MaxFilenameLength]
  }

  /** A sanitized name is left alone by a second pass. */
  lemma SanitizeIdempotent(title: string)
    ensures SanitizeFilename(SanitizeFilename(title)) == SanitizeFilename(title)
  {
    var once := SanitizeFilename(title);
    var twice := SanitizeFilename(once);
    assert |twice| == |once|;
    forall i | 0 <= i < |twice| ensures twice[i] == once[i] {
      assert !IsForbidden(once[i]);
    }
  }

  /** Two titles that differ only in which forbidden characters they hold
      get the same file name: the name does not tell them apart. */
  lemma SanitizeMergesForbidden(a: string, b: string)
    requires |a| == |b|
    requires forall i :: 0 <= i < |a| ==> a[i] == b[i] || (IsForbidden(a[i]) && IsForbidden(b[i]))
    ensures SanitizeFilename(a) == SanitizeFilename(b)
  {
    var ra, rb := SanitizeFilename(a), SanitizeFilename(b);
    forall i | 0 <= i < |ra| ensures ra[i] == rb[i] {
      if IsForbidden(a[i]) {
        assert IsForbidden(b[i]);
      }
    }
  }

  // ---------------------------------------------------------------------
  // `retry_on_stale_element`.

  /** The decorator's defaults: three tries, one second apart. */
  const DefaultMaxRetries := 3
  const DefaultDelay := 1.0

  /** How a wrapped call ends: the action's value, an error that is not a
      stale element (raised at once), or the generic exception raised after
      the last try. */
  datatype StaleResult<T, E> = Done(value: T) | Failed(error: E) | GaveUp(message: string)

  /** The number of tries `while retries < max_retries` makes at most. */
  function Tries(maxRetries: int): (n: nat)
    ensures maxRetries > 0 ==> n == maxRetries
    ensures maxRetries <= 0 ==> n == 0
  {
    if maxRetries > 0 then maxRetries else 0
  }

  /** `str(n)` for any integer. */
  function IntText(n: int): string
  {
    if n < 0 then "-" + NatText(-n) else NatText(n)
  }

  /** The message of the exception raised when every try hit a stale
      element. */
  function GiveUpMessage(maxRetries: int): string
  {
    "[ERROR] Failed after " + IntText(maxRetries) + " retries due to stale element."
  }

  /** The wrapper `retry_on_stale_element(max_retries, delay)` puts around an
      action. The `i`-th call of the action ends as `script[i]`; `isStale`
      tells a stale-element error from any other; `sleeps` lists the pauses
      in order.

      The action is called until a call does not raise a stale element, at
      most `max_retries` times (never, when that is 0 or less). The first
      call that returns gives the result at once, and the first call that
      raises another error passes it on at once. Every stale failure, the
      last one included, is followed by one pause of `delay`; after
      `max_retries` of them the generic exception is raised. */
  method RetryOnStaleElement<T, E>(maxRetries: int, delay: real, isStale: E -> bool, script: seq<Outcome<T, E>>)
    returns (result: StaleResult<T, E>, calls: nat, sleeps: seq<real>)
    requires Tries(maxRetries) <= |script|
    ensures var n := Tries(maxRetries); var k := FirstStop(script, isStale, n);
      && calls == (if k < n then k + 1 else n)
      && |sleeps| == k
      && (forall i :: 0 <= i < |sleeps| ==> sleeps[i] == delay)
      && (k < n && script[k].Returned? ==> result == Done(script[k].value))
      && (k < n && script[k].Raised? ==> result == Failed(script[k].error) && !isStale(script[k].error))
      && (k == n ==> result == GaveUp(GiveUpMessage(maxRetries)))
    ensures calls <= Tries(maxRetries)
    ensures maxRetries <= 0 ==> calls == 0 && sleeps == [] && result == GaveUp(GiveUpMessage(maxRetries))
  {
    ghost var n := Tries(maxRetries);
    var retries := 0;
    calls, sleeps := 0, [];
    while retries < maxRetries
      invariant 0 <= retries <= n
      invariant calls == retries && |sleeps| == retries
      invariant forall i :: 0 <= i < retries ==> FailsWith(script[i], isStale)
      invariant forall i :: 0 <= i < |sleeps| ==> sleeps[i] == delay
      decreases maxRetries - retries
    {
      var outcome := script[retries];
      calls := calls + 1;
      if outcome.Returned? {
        result := Done(outcome.value);
        FirstStopUnique(script, isStale, n, retries);
        return;
      }
      if !isStale(outcome.error) {
        result := Failed(outcome.error);
        FirstStopUnique(script, isStale, n, retries);
        return;
      }
      sleeps := sleeps + [delay];
      retries := retries + 1;
    }
    FirstStopUnique(script, isStale, n, n);
    result := GaveUp(GiveUpMessage(maxRetries));
  }
}
