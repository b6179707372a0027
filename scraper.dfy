/**
 * The loop of `scrape_tokens`: walk the rows in page order, resolve each
 * row's name and expiration, and append a record for every row that has a
 * name. An exception that escapes a row ends the walk and the records
 * gathered so far are returned; a timeout while waiting for rows returns
 * none.
 */
module Scraper {
  import opened Wrappers
  import opened Text
  import opened IsoDate
  import opened TokenRows

  method ScrapeTokens(page: Page) returns (tokens: seq<Record>)
    ensures tokens == Scrape(page)
    ensures page.TimedOut? ==> tokens == []
    ensures page.Loaded? ==> |tokens| <= |page.rows| - Nameless(page.rows)
  {
    tokens := [];
    if page.TimedOut? {
      return;
    }
    var rows := page.rows;
    ghost var outs := Outcomes(rows);
    NamelessRowsAreDropped(rows);
    if |rows| == 0 {
      return;
    }
    var i := 0;
    while i < |rows|
      invariant 0 <= i <= FirstAbort(outs)
      invariant tokens == Records(outs[..i])
    {
      var outcome := ProcessRow(rows[i]);
      OutcomeAt(rows, i);
      LoopStep(outs, i);
      match outcome {
        case Aborted =>
          return;
        case Skipped =>
        case Emitted(token) =>
          tokens := tokens + [token];
      }
      i := i + 1;
    }
    assert outs[..i] == outs;
  }

  /** What one more row does to the loop's state, in terms of the outcomes alone. */
  lemma LoopStep(outs: seq<RowOutcome>, i: nat)
    requires i < |outs| && i <= FirstAbort(outs)
    ensures outs[i].Aborted? ==> FirstAbort(outs) == i
    ensures !outs[i].Aborted? ==> i + 1 <= FirstAbort(outs)
    ensures Records(outs[..i + 1]) == Records(outs[..i]) + (if outs[i].Emitted? then [outs[i].record] else [])
  {
    assert outs[..i + 1][..i] == outs[..i];
  }

  /**
   * One pass of the row loop: the name lookup, where a missing element
   * keeps the sentinel and any other failure escapes, then the expiration,
   * then the decision to keep the row.
   */
  method ProcessRow(row: Row) returns (outcome: RowOutcome)
    ensures outcome == OutcomeOf(row)
  {
    var tokenName := NameNotFound;
    if row.nameFault {
      return Aborted;
    }
    if row.name.Present? {
      tokenName := ResolveName(row.name.text);
    }
    var expiry := ResolveExpiry(row);
    if expiry.Raised? {
      return Aborted;
    }
    if tokenName != NameNotFound {
      outcome := Emitted(Record(tokenName, expiry.value));
    } else {
      outcome := Skipped;
    }
  }

  /** The name of a token whose name element was found. */
  method ResolveName(text: string) returns (name: string)
    ensures name == NameOf(Present(text))
  {
    name := Strip(text);
    if name == "" {
      name := UnnamedToken;
    }
  }

  /** The expiration of one row: the `<relative-time>` element first, the spans only without it. */
  method ResolveExpiry(row: Row) returns (expiry: ExpiryOutcome)
    ensures expiry == ExpiryOf(row)
  {
    match row.time {
      case TimeElement(attr) =>
        var date := FormatExpiry(attr);
        expiry := Resolved(if date.Some? then date.value else ExpiryParseError);
      case NoTimeElement =>
        expiry := ScanExpiryText(row.spans);
    }
  }

  /**
   * The span fallback: look at the spans in order and stop at the first
   * that says "No expiration" or "Expires on".
   */
  method ScanExpiryText(spans: seq<Span>) returns (expiry: ExpiryOutcome)
    ensures expiry == ScanSpans(spans)
  {
    var expiration := "N/A";
    var found := false;
    var j := 0;
    while j < |spans|
      invariant 0 <= j <= |spans|
      invariant !found
      invariant ScanSpans(spans[j..]) == ScanSpans(spans)
    {
      assert spans[j..][1..] == spans[j + 1..];
      match spans[j] {
        case Unreadable =>
          // Raised inside the handler for a missing `<relative-time>`: escapes the row.
          return Raised;
        case Readable(raw) =>
          var text := Strip(raw);
          if Contains(text, NoExpiration) {
            expiration := NoExpiration;
            found := true;
            break;
          } else if Contains(text, ExpiresOn) {
            expiration := text;
            found := true;
            break;
          }
      }
      j := j + 1;
    }
    if !found {
      expiration := ExpirationNotFound;
    }
    expiry := Resolved(expiration);
  }
}
