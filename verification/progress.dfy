/** The progress tracker that the web UI polls: two dictionaries of named
    fields, one for the scraping step and one for the OCR step. Resets and the
    pipeline's own progress reports both merge into these dictionaries in
    place, so a key is never removed once written. */
module Progress {
  import opened Text

  /** A field value: the trackers hold integers, strings and None. */
  datatype Value = Int(i: int) | Str(s: string) | Null

  type Fields = map<string, Value>

  /** The seven scraping fields a new tracker starts with and a reset restores. */
  const ScrapingDefaults: Fields := map[
    "current" := Int(0),
    "total" := Int(0),
    "status" := Str("idle"),
    "message" := Str("Ready to start"),
    "current_folder" := Null,
    "start_time" := Null,
    "usernames_count" := Int(0)
  ]

  /** The five OCR fields a new tracker starts with and a reset restores. */
  const OcrDefaults: Fields := map[
    "current" := Int(0),
    "total" := Int(0),
    "status" := Str("idle"),
    "message" := Str("Ready to start"),
    "current_file" := Str("")
  ]

  /** `fields.update(changes)`: every changed key takes its new value, every
      other key keeps its own, and no key disappears. */
  function Merge(fields: Fields, changes: Fields): (r: Fields)
    ensures r.Keys == fields.Keys + changes.Keys
    ensures forall k :: k in changes ==> r[k] == changes[k]
    ensures forall k :: k in fields && k !in changes ==> r[k] == fields[k]
  {
    fields + changes
  }

  /** Merging the same changes twice is merging them once; in particular a
      second reset in a row changes nothing. */
  lemma MergeIdempotent(fields: Fields, changes: Fields)
    ensures Merge(Merge(fields, changes), changes) == Merge(fields, changes)
  {
  }

  /** A reset wipes out every earlier merge that only touched default keys:
      resetting after such an update gives what resetting before it gives. */
  lemma ResetForgetsDefaultKeys(fields: Fields, update: Fields, defaults: Fields)
    requires update.Keys <= defaults.Keys
    ensures Merge(Merge(fields, update), defaults) == Merge(fields, defaults)
  {
    var a, b := Merge(Merge(fields, update), defaults), Merge(fields, defaults);
    assert a.Keys == b.Keys;
    forall k | k in a ensures a[k] == b[k] {
      if k !in defaults {
        assert k !in update;
      }
    }
  }

  /** A new tracker is already in its reset state. */
  lemma DefaultsAreReset()
    ensures Merge(ScrapingDefaults, ScrapingDefaults) == ScrapingDefaults
    ensures Merge(OcrDefaults, OcrDefaults) == OcrDefaults
  {
  }

  /** After a reset the scraping section holds the seven defaults; any other
      key it held keeps its value. */
  lemma ScrapingResetState(fields: Fields)
    ensures var r := Merge(fields, ScrapingDefaults);
      && r["current"] == Int(0) && r["total"] == Int(0)
      && r["status"] == Str("idle") && r["message"] == Str("Ready to start")
      && r["current_folder"] == Null && r["start_time"] == Null && r["usernames_count"] == Int(0)
      && (forall k :: k in fields && k !in ScrapingDefaults ==> k in r && r[k] == fields[k])
  {
  }

  /** The report the scraper merges into the scraping section before it
      processes the `i`-th of `total` usernames. */
  function ScraperReport(i: nat, total: nat, username: string): (r: Fields)
    ensures r.Keys == {"current", "total", "message", "current_file", "status"}
    ensures r["current"] == Int(i) && r["total"] == Int(total) && r["status"] == Str("running")
    ensures r["current_file"] == Str(username)
  {
    map[
      "current" := Int(i),
      "total" := Int(total),
      "message" := Str("Memproses " + username + " (" + NatText(i) + "/" + NatText(total) + ")"),
      "current_file" := Str(username),
      "status" := Str("running")
    ]
  }

  /** `current_file` is not a scraping default, so the username the scraper
      last wrote there survives a scraping reset while the fields it shares
      with the defaults go back to them. */
  lemma ReportedFileSurvivesReset(fields: Fields, i: nat, total: nat, username: string)
    ensures var r := Merge(Merge(fields, ScraperReport(i, total, username)), ScrapingDefaults);
      && r["current_file"] == Str(username)
      && r["current"] == Int(0) && r["status"] == Str("idle")
  {
    var report := ScraperReport(i, total, username);
    var m := Merge(fields, report);
    assert m["current_file"] == Str(username);
    assert "current_file" !in ScrapingDefaults.Keys;
    assert "current" in ScrapingDefaults && "status" in ScrapingDefaults;
  }

  /** The tracker: two dictionaries that are updated in place. */
  class ProgressTracker {
    var scraping: Fields
    var ocr: Fields

    /** A tracker with both sections at their defaults. */
    constructor ()
      ensures scraping == ScrapingDefaults && ocr == OcrDefaults
    {
      scraping := ScrapingDefaults;
      ocr := OcrDefaults;
    }

    /** `reset_scraping`: merge the scraping defaults; the OCR section is
        untouched. */
    method ResetScraping()
      modifies this
      ensures scraping == Merge(old(scraping), ScrapingDefaults)
      ensures ocr == old(ocr)
    {
      scraping := scraping + ScrapingDefaults;
    }

    /** `reset_ocr`: merge the OCR defaults; the scraping section is
        untouched. */
    method ResetOcr()
      modifies this
      ensures ocr == Merge(old(ocr), OcrDefaults)
      ensures scraping == old(scraping)
    {
      ocr := ocr + OcrDefaults;
    }

    /** `reset_all`: the scraping reset, then the OCR reset. A second call
        changes nothing (MergeIdempotent). */
    method ResetAll()
      modifies this
      ensures scraping == Merge(old(scraping), ScrapingDefaults)
      ensures ocr == Merge(old(ocr), OcrDefaults)
    {
      ResetScraping();
      ResetOcr();
    }

    /** `progress.scraping.update(changes)` (and `progress.scraping[k] = v`
        as the one-key case), as the pipeline does. */
    method UpdateScraping(changes: Fields)
      modifies this
      ensures scraping == Merge(old(scraping), changes)
      ensures ocr == old(ocr)
    {
      scraping := scraping + changes;
    }

    /** `progress.ocr.update(changes)`. */
    method UpdateOcr(changes: Fields)
      modifies this
      ensures ocr == Merge(old(ocr), changes)
      ensures scraping == old(scraping)
    {
      ocr := ocr + changes;
    }
  }
}
