/**
 * What `scrape_tokens` makes of the rows of the classic personal access
 * token table. The browser is replaced by an observation of each row: what
 * the name lookup, the `<relative-time>` lookup and the expiry-text spans
 * found. This module states, as functions, which record each row yields
 * and which records the whole scrape returns; the loop that computes them
 * is `Scraper.ScrapeTokens`.
 */
module TokenRows {
  import opened Wrappers
  import opened Text
  import opened IsoDate

  /** The name a row starts with, and keeps when it has no name element; such rows are not reported. */
  const NameNotFound := "N/A"
  /** The name given to a token whose name element holds only whitespace. */
  const UnnamedToken := "Unnamed Token"
  const NoExpiration := "No expiration"
  const ExpiresOn := "Expires on"
  /** The expiration of a row without `<relative-time>` whose spans say nothing about expiry. */
  const ExpirationNotFound := "Expiration not found"
  /** The expiration of a row whose `<relative-time>` attribute cannot be read as a date. */
  const ExpiryParseError := "Error parsing expiry"

  /** The `a > strong` element that holds the token's note. */
  datatype NameElement = Absent | Present(text: string)

  /** The `<relative-time>` element and its `datetime` attribute, which may be missing. */
  datatype TimeElement = NoTimeElement | TimeElement(datetime: Option<string>)

  /** One expiry-text span: its text, or a failure while reading it (a stale element, say). */
  datatype Span = Readable(text: string) | Unreadable

  /**
   * A table row as the scraper sees it. `nameFault` is set when looking up
   * or reading the name raises something other than "no such element".
   */
  datatype Row = Row(name: NameElement, time: TimeElement, spans: seq<Span>, nameFault: bool)

  /** The wait for the rows either times out or returns them in page order. */
  datatype Page = TimedOut | Loaded(rows: seq<Row>)

  /** One line of the report: the "Token Name" and "Expiration Date" columns. */
  datatype Record = Record(name: string, expiration: string)

  /** The expiration of a row, or `Raised` when an exception escapes the row. */
  datatype ExpiryOutcome = Resolved(value: string) | Raised

  /** A row either ends the scrape, is skipped, or adds one record. */
  datatype RowOutcome = Aborted | Skipped | Emitted(record: Record)

  /** The token name of a row. */
  function NameOf(e: NameElement): (name: string)
    ensures e.Absent? ==> name == NameNotFound
    ensures e.Present? ==> name == Strip(e.text) || (Strip(e.text) == "" && name == UnnamedToken)
    ensures name != ""
  {
    match e
    case Absent => NameNotFound
    case Present(text) =>
      var stripped := Strip(text);
      if stripped != "" then stripped else UnnamedToken
  }

  /**
   * What one stripped span says about expiry, if anything. A span that says
   * "No expiration" is read as such even if it also says "Expires on".
   */
  function SpanVerdict(text: string): (v: Option<string>)
    ensures Occurs(NoExpiration, text) ==> v == Some(NoExpiration)
    ensures !Occurs(NoExpiration, text) && Occurs(ExpiresOn, text) ==> v == Some(text)
    ensures v.None? <==> !Occurs(NoExpiration, text) && !Occurs(ExpiresOn, text)
  {
    if Contains(text, NoExpiration) then Some(NoExpiration)
    else if Contains(text, ExpiresOn) then Some(text)
    else None
  }

  /** The fallback used when a row has no `<relative-time>`: the first span that says something decides. */
  function ScanSpans(spans: seq<Span>): (r: ExpiryOutcome)
    ensures r.Raised? ==> Unreadable in spans
    ensures r.Resolved? ==> r.value == ExpirationNotFound || r.value == NoExpiration || Occurs(ExpiresOn, r.value)
    ensures (forall k :: 0 <= k < |spans| ==> SaysNothing(spans[k])) ==> r == Resolved(ExpirationNotFound)
  {
    if spans == [] then Resolved(ExpirationNotFound)
    else
      match spans[0]
      case Unreadable => Raised
      case Readable(raw) =>
        match SpanVerdict(Strip(raw))
        case Some(v) => Resolved(v)
        case None => ScanSpans(spans[1..])
  }

  /**
   * The expiration of a row. A `<relative-time>` element decides on its own:
   * its date if the attribute parses, the parse error otherwise. In the
   * source the span fallback runs inside the handler for a missing
   * `<relative-time>`, so a failure there is not caught by the handler that
   * produces the parse error and escapes the row.
   */
  function ExpiryOf(row: Row): (r: ExpiryOutcome)
    ensures row.time.TimeElement? ==> r.Resolved? && (r.value == ExpiryParseError || IsDate(r.value))
    ensures row.time.NoTimeElement? ==> r == ScanSpans(row.spans)
  {
    match row.time
    case TimeElement(attr) =>
      Resolved(match FormatExpiry(attr) case Some(date) => date case None => ExpiryParseError)
    case NoTimeElement => ScanSpans(row.spans)
  }

  /** What one row does to the scrape. */
  function OutcomeOf(row: Row): (o: RowOutcome)
    ensures o.Aborted? <==> row.nameFault || ExpiryOf(row).Raised?
    ensures o.Skipped? <==> !o.Aborted? && NameOf(row.name) == NameNotFound
    ensures o.Emitted? ==> o.record == Record(NameOf(row.name), ExpiryOf(row).value)
  {
    if row.nameFault then Aborted
    else
      match ExpiryOf(row)
      case Raised => Aborted
      case Resolved(expiration) =>
        var name := NameOf(row.name);
        if name != NameNotFound then Emitted(Record(name, expiration)) else Skipped
  }

  /** The outcome of every row, in page order. */
  function Outcomes(rows: seq<Row>): (outs: seq<RowOutcome>)
    ensures |outs| == |rows|
  {
    if rows == [] then [] else Outcomes(rows[..|rows| - 1]) + [OutcomeOf(rows[|rows| - 1])]
  }

  /** The outcomes are those of the rows, position by position. */
  lemma {:induction false} OutcomeAt(rows: seq<Row>, i: nat)
    requires i < |rows|
    ensures Outcomes(rows)[i] == OutcomeOf(rows[i])
  {
    var n := |rows| - 1;
    var init := Outcomes(rows[..n]);
    assert Outcomes(rows) == init + [OutcomeOf(rows[n])];
    if i < n {
      OutcomeAt(rows[..n], i);
      assert rows[..n][i] == rows[i];
      assert (init + [OutcomeOf(rows[n])])[i] == init[i];
    }
  }

  /** The outcomes of two runs of rows, one after the other. */
  lemma {:induction false} OutcomesAppend(a: seq<Row>, b: seq<Row>)
    ensures Outcomes(a + b) == Outcomes(a) + Outcomes(b)
  {
    if b == [] {
      assert a + b == a;
    } else {
      var init := b[..|b| - 1];
      assert (a + b)[..|a + b| - 1] == a + init;
      assert (a + b)[|a + b| - 1] == b[|b| - 1];
      OutcomesAppend(a, init);
    }
  }

  /** No row raises. */
  ghost predicate NoRowRaises(rows: seq<Row>)
  {
    forall j :: 0 <= j < |rows| ==> !OutcomeOf(rows[j]).Aborted?
  }

  /** The records a run of outcomes adds, in order. */
  function Records(outs: seq<RowOutcome>): seq<Record>
  {
    if outs == [] then []
    else
      var last := outs[|outs| - 1];
      Records(outs[..|outs| - 1]) + (if last.Emitted? then [last.record] else [])
  }

  /** The index of the first outcome that ends the scrape, or the length when none does. */
  function FirstAbort(outs: seq<RowOutcome>): (k: nat)
    ensures k <= |outs|
    ensures forall j :: 0 <= j < k ==> !outs[j].Aborted?
    ensures k < |outs| ==> outs[k].Aborted?
  {
    if outs == [] || outs[0].Aborted? then 0 else 1 + FirstAbort(outs[1..])
  }

  /**
   * What `scrape_tokens` returns: nothing after a timeout, otherwise the
   * records of the rows before the first one that raised.
   */
  function Scrape(page: Page): (r: seq<Record>)
    ensures page.TimedOut? ==> r == []
    ensures page.Loaded? ==> |r| <= FirstAbort(Outcomes(page.rows)) <= |page.rows|
  {
    match page
    case TimedOut => []
    case Loaded(rows) =>
      var outs := Outcomes(rows);
      RecordsCount(outs[..FirstAbort(outs)]);
      Records(outs[..FirstAbort(outs)])
  }

  // ---------------------------------------------------------------------
  // Order and filtering
  // ---------------------------------------------------------------------

  /** When no row raises, the scan for the first failure runs off the end. */
  lemma NoRowRaisesReachesEnd(rows: seq<Row>)
    requires NoRowRaises(rows)
    ensures FirstAbort(Outcomes(rows)) == |rows|
  {
    var k := FirstAbort(Outcomes(rows));
    if k < |rows| {
      OutcomeAt(rows, k);
    }
  }

  /** Gathering records works piecewise. */
  lemma {:induction false} RecordsAppend(a: seq<RowOutcome>, b: seq<RowOutcome>)
    ensures Records(a + b) == Records(a) + Records(b)
  {
    if b == [] {
      assert a + b == a;
    } else {
      var init := b[..|b| - 1];
      assert (a + b)[..|a + b| - 1] == a + init;
      assert (a + b)[|a + b| - 1] == b[|b| - 1];
      RecordsAppend(a, init);
    }
  }

  /** `idx` lists, in increasing order, exactly the positions that emit, and `out` holds their records. */
  ghost predicate SelectsInOrder(out: seq<Record>, outs: seq<RowOutcome>, idx: seq<nat>)
  {
    |idx| == |out| &&
    (forall j :: 0 <= j < |idx| ==> idx[j] < |outs| && outs[idx[j]] == Emitted(out[j])) &&
    (forall j, k :: 0 <= j < k < |idx| ==> idx[j] < idx[k]) &&
    (forall i :: 0 <= i < |outs| && outs[i].Emitted? ==> i in idx)
  }

  /** The positions that emit a record. */
  function EmittingIndices(outs: seq<RowOutcome>): (idx: seq<nat>)
    ensures forall j :: 0 <= j < |idx| ==> idx[j] < |outs|
  {
    if outs == [] then []
    else
      var n := |outs| - 1;
      EmittingIndices(outs[..n]) + (if outs[n].Emitted? then [n] else [])
  }

  /**
   * The records are those of the emitting rows, one per row, in the rows'
   * order, and no emitting row is missed.
   */
  lemma {:induction false} RecordsSelectInOrder(outs: seq<RowOutcome>)
    ensures SelectsInOrder(Records(outs), outs, EmittingIndices(outs))
  {
    if outs != [] {
      var n := |outs| - 1;
      var init := outs[..n];
      RecordsSelectInOrder(init);
      var out, idx := Records(outs), EmittingIndices(outs);
      var out0, idx0 := Records(init), EmittingIndices(init);
      var tail := if outs[n].Emitted? then [n] else [];
      assert out == out0 + (if outs[n].Emitted? then [outs[n].record] else []);
      assert idx == idx0 + tail;
      forall j | 0 <= j < |idx| ensures idx[j] < |outs| && outs[idx[j]] == Emitted(out[j]) {
        if j < |idx0| {
          assert idx[j] == idx0[j] && out[j] == out0[j];
          assert outs[idx0[j]] == init[idx0[j]];
        }
      }
      forall i | 0 <= i < |outs| && outs[i].Emitted? ensures i in idx {
        if i < n {
          assert outs[i] == init[i];
          assert i in idx0;
        }
      }
    }
  }

  /**
   * The report lists the records of the emitting rows, in page order, one
   * per row and none missed: the rows filtered, never reordered.
   */
  lemma ScrapeSelectsRowsInOrder(rows: seq<Row>)
    requires NoRowRaises(rows)
    ensures SelectsInOrder(Scrape(Loaded(rows)), Outcomes(rows), EmittingIndices(Outcomes(rows)))
  {
    CompleteScrape(rows);
    RecordsSelectInOrder(Outcomes(rows));
  }

  /** The number of outcomes that add no record. */
  function Silent(outs: seq<RowOutcome>): (k: nat)
    ensures k <= |outs|
  {
    if outs == [] then 0
    else Silent(outs[..|outs| - 1]) + (if outs[|outs| - 1].Emitted? then 0 else 1)
  }

  /** Each outcome adds at most one record, and only emitting ones add any. */
  lemma {:induction false} RecordsCount(outs: seq<RowOutcome>)
    ensures |Records(outs)| == |outs| - Silent(outs)
  {
    if outs != [] {
      RecordsCount(outs[..|outs| - 1]);
    }
  }

  /** The number of rows that have no name element, or whose name text strips to the sentinel. */
  function Nameless(rows: seq<Row>): (k: nat)
    ensures k <= |rows|
  {
    if rows == [] then 0
    else Nameless(rows[..|rows| - 1]) + (if NameOf(rows[|rows| - 1].name) == NameNotFound then 1 else 0)
  }

  /** A nameless row never adds a record. */
  lemma {:induction false} NamelessAreSilent(rows: seq<Row>)
    ensures Nameless(rows) <= Silent(Outcomes(rows))
  {
    if rows != [] {
      var n := |rows| - 1;
      NamelessAreSilent(rows[..n]);
      assert Outcomes(rows)[..n] == Outcomes(rows[..n]);
      assert Outcomes(rows)[n] == OutcomeOf(rows[n]);
    }
  }

  /** Rows without a name never reach the report: N rows of which K are nameless give at most N - K records. */
  lemma NamelessRowsAreDropped(rows: seq<Row>)
    ensures |Scrape(Loaded(rows))| <= |rows| - Nameless(rows)
  {
    var outs := Outcomes(rows);
    var k := FirstAbort(outs);
    assert outs == outs[..k] + outs[k..];
    RecordsAppend(outs[..k], outs[k..]);
    RecordsCount(outs);
    NamelessAreSilent(rows);
  }

  // ---------------------------------------------------------------------
  // Keep or drop: only the name decides
  // ---------------------------------------------------------------------

  /**
   * A row that does not raise is dropped exactly when its name is the
   * sentinel, and otherwise reports its name and expiration.
   */
  lemma KeepDecidedByName(row: Row)
    requires !row.nameFault && ExpiryOf(row).Resolved?
    ensures OutcomeOf(row).Skipped? <==> NameOf(row.name) == NameNotFound
    ensures OutcomeOf(row).Emitted? <==> NameOf(row.name) != NameNotFound
    ensures OutcomeOf(row).Emitted? ==> OutcomeOf(row).record == Record(NameOf(row.name), ExpiryOf(row).value)
  {
  }

  function Names(records: seq<Record>): (names: seq<string>)
    ensures |names| == |records|
    ensures forall j :: 0 <= j < |records| ==> names[j] == records[j].name
  {
    if records == [] then [] else [records[0].name] + Names(records[1..])
  }

  lemma NamesAppend(a: seq<Record>, b: seq<Record>)
    ensures Names(a + b) == Names(a) + Names(b)
  {
    var l, r := Names(a + b), Names(a) + Names(b);
    forall j | 0 <= j < |l| ensures l[j] == r[j] {
      if j < |a| { assert (a + b)[j] == a[j]; } else { assert (a + b)[j] == b[j - |a|]; }
    }
  }

  /** Outcomes that emit at the same positions, under the same names, give the same names. */
  lemma {:induction false} RecordNamesAgree(outs: seq<RowOutcome>, outs': seq<RowOutcome>)
    requires |outs| == |outs'|
    requires forall i :: 0 <= i < |outs| ==> outs[i].Emitted? == outs'[i].Emitted?
    requires forall i :: 0 <= i < |outs| && outs[i].Emitted? ==> outs[i].record.name == outs'[i].record.name
    ensures Names(Records(outs)) == Names(Records(outs'))
  {
    if outs != [] {
      var n := |outs| - 1;
      RecordNamesAgree(outs[..n], outs'[..n]);
      var last := if outs[n].Emitted? then [outs[n].record] else [];
      var last' := if outs'[n].Emitted? then [outs'[n].record] else [];
      NamesAppend(Records(outs[..n]), last);
      NamesAppend(Records(outs'[..n]), last');
    }
  }

  /**
   * Changing what rows say about expiry changes neither which rows are
   * reported nor under which names, as long as no row raises.
   */
  lemma KeepIgnoresExpiry(rows: seq<Row>, rows': seq<Row>)
    requires |rows| == |rows'|
    requires forall i :: 0 <= i < |rows| ==> rows[i].name == rows'[i].name
    requires NoRowRaises(rows) && NoRowRaises(rows')
    ensures Names(Scrape(Loaded(rows))) == Names(Scrape(Loaded(rows')))
  {
    var outs, outs' := Outcomes(rows), Outcomes(rows');
    forall i | 0 <= i < |rows|
      ensures outs[i].Emitted? == outs'[i].Emitted?
      ensures outs[i].Emitted? ==> outs[i].record.name == outs'[i].record.name
    {
      OutcomeAt(rows, i);
      OutcomeAt(rows', i);
      KeepDecidedByName(rows[i]);
      KeepDecidedByName(rows'[i]);
    }
    RecordNamesAgree(outs, outs');
    CompleteScrape(rows);
    CompleteScrape(rows');
  }

  // ---------------------------------------------------------------------
  // Name resolution
  // ---------------------------------------------------------------------

  /**
   * A row without a name element gets the sentinel; a present element gives
   * its stripped text, or "Unnamed Token" when that is empty. Every name is
   * non-empty and carries no surrounding whitespace.
   */
  lemma NameResolution(e: NameElement)
    ensures e.Absent? ==> NameOf(e) == NameNotFound
    ensures e.Present? && Strip(e.text) != "" ==> NameOf(e) == Strip(e.text)
    ensures e.Present? && Strip(e.text) == "" ==> NameOf(e) == UnnamedToken
    ensures NameOf(e) != "" && Trimmed(NameOf(e))
  {
    assert !IsSpace(UnnamedToken[0]) && !IsSpace(UnnamedToken[|UnnamedToken| - 1]);
    assert !IsSpace(NameNotFound[0]) && !IsSpace(NameNotFound[|NameNotFound| - 1]);
  }

  /** A present name element whose text strips to "N/A" is dropped like a missing one. */
  lemma LiteralSentinelNameIsDropped(row: Row)
    requires !row.nameFault && ExpiryOf(row).Resolved?
    requires row.name.Present? && Strip(row.name.text) == NameNotFound
    ensures OutcomeOf(row) == Skipped
  {
  }

  // ---------------------------------------------------------------------
  // Expiration: the `<relative-time>` tier
  // ---------------------------------------------------------------------

  /**
   * A `<relative-time>` element with a well-formed attribute gives the date
   * written at its start, and the spans are never looked at.
   */
  lemma RelativeTimeWins(row: Row, spans: seq<Span>)
    requires row.time.TimeElement? && row.time.datetime.Some?
    requires IsIsoDateTime(ReplaceZ(row.time.datetime.value))
    ensures |row.time.datetime.value| >= 10 && ExpiryOf(row) == Resolved(row.time.datetime.value[..10])
    ensures ExpiryOf(row.(spans := spans)) == ExpiryOf(row)
  {
    var date := FormatExpiry(row.time.datetime);
    assert date.Some?;
    assert ExpiryOf(row) == Resolved(date.value);
  }

  /**
   * A `<relative-time>` element whose attribute is missing or does not parse
   * gives the parse error, whatever the spans say: the failure does not fall
   * through to the text fallback.
   */
  lemma RelativeTimeFailureIsFinal(row: Row)
    requires row.time.TimeElement?
    requires row.time.datetime.None? || !IsIsoDateTime(ReplaceZ(row.time.datetime.value))
    ensures ExpiryOf(row) == Resolved(ExpiryParseError)
  {
  }

  // ---------------------------------------------------------------------
  // Expiration: the span fallback
  // ---------------------------------------------------------------------

  /** A span that can be read and says nothing about expiry. */
  predicate SaysNothing(span: Span)
  {
    span.Readable? && SpanVerdict(Strip(span.text)).None?
  }

  /** The spans before `k` are readable and say nothing about expiry. */
  ghost predicate SilentBefore(spans: seq<Span>, k: int)
    requires 0 <= k <= |spans|
  {
    forall j :: 0 <= j < k ==> SaysNothing(spans[j])
  }

  /** A span that says nothing passes the scan on to the next. */
  lemma ScanPassesOn(spans: seq<Span>)
    requires spans != [] && SaysNothing(spans[0])
    ensures ScanSpans(spans) == ScanSpans(spans[1..])
  {
  }

  /** Skipping silent spans does not change the scan. */
  lemma {:induction false} ScanSkipsSilent(spans: seq<Span>, k: nat)
    requires k <= |spans| && SilentBefore(spans, k)
    ensures ScanSpans(spans) == ScanSpans(spans[k..])
  {
    if k > 0 {
      ScanPassesOn(spans);
      assert SilentBefore(spans[1..], k - 1) by {
        forall j | 0 <= j < k - 1 ensures SaysNothing(spans[1..][j]) {
          assert spans[1..][j] == spans[j + 1];
        }
      }
      ScanSkipsSilent(spans[1..], k - 1);
      assert spans[1..][k - 1..] == spans[k..];
    }
  }

  /**
   * First match wins: when span `k` is the first that says "No expiration"
   * or "Expires on", it alone decides — "No expiration" for the former,
   * the whole stripped span text for the latter.
   */
  lemma FirstMatchingSpanDecides(spans: seq<Span>, k: nat)
    requires k < |spans| && SilentBefore(spans, k)
    requires spans[k].Readable? && SpanVerdict(Strip(spans[k].text)).Some?
    ensures var text := Strip(spans[k].text);
            ScanSpans(spans) == Resolved(if Occurs(NoExpiration, text) then NoExpiration else text)
  {
    ScanSkipsSilent(spans, k);
  }

  /** When no span says anything about expiry, and also when there are no spans, expiry is "not found". */
  lemma NoMatchingSpan(spans: seq<Span>)
    requires SilentBefore(spans, |spans|)
    ensures ScanSpans(spans) == Resolved(ExpirationNotFound)
  {
    ScanSkipsSilent(spans, |spans|);
  }

  /** A span that cannot be read before any match makes the row raise. */
  lemma UnreadableSpanRaises(spans: seq<Span>, k: nat)
    requires k < |spans| && SilentBefore(spans, k) && spans[k].Unreadable?
    ensures ScanSpans(spans) == Raised
  {
    ScanSkipsSilent(spans, k);
  }

  /** The spans only matter when there is no `<relative-time>` element. */
  lemma SpansOnlyWithoutRelativeTime(row: Row)
    requires row.time.NoTimeElement?
    ensures ExpiryOf(row) == ScanSpans(row.spans)
  {
  }

  // ---------------------------------------------------------------------
  // Failure outcomes
  // ---------------------------------------------------------------------

  /** The wait for rows timing out gives no records. */
  lemma TimeoutYieldsNothing()
    ensures Scrape(TimedOut) == []
  {
  }

  /** Without any failure, every row is processed. */
  lemma CompleteScrape(rows: seq<Row>)
    requires NoRowRaises(rows)
    ensures Scrape(Loaded(rows)) == Records(Outcomes(rows))
  {
    var outs := Outcomes(rows);
    NoRowRaisesReachesEnd(rows);
    assert outs[..|rows|] == outs;
  }

  /**
   * When row `i` is the first that raises, the scrape returns exactly what
   * the rows before it give on their own, and that begins what all rows
   * give when the failing ones are passed over.
   */
  lemma {:induction false} FailureKeepsPrefix(rows: seq<Row>, i: nat)
    requires i < |rows| && OutcomeOf(rows[i]).Aborted?
    requires NoRowRaises(rows[..i])
    ensures Scrape(Loaded(rows)) == Scrape(Loaded(rows[..i]))
    ensures Records(Outcomes(rows)) == Scrape(Loaded(rows)) + Records(Outcomes(rows[i..]))
  {
    var before, after := Outcomes(rows[..i]), Outcomes(rows[i..]);
    assert rows == rows[..i] + rows[i..];
    OutcomesAppend(rows[..i], rows[i..]);
    NoRowRaisesReachesEnd(rows[..i]);
    CompleteScrape(rows[..i]);
    OutcomeAt(rows[i..], 0);
    AbortAfterClean(before, after);
    RecordsAppend(before, after);
  }

  /** Outcomes that end the scrape only after a clean run give the records of that run. */
  lemma {:induction false} AbortAfterClean(a: seq<RowOutcome>, b: seq<RowOutcome>)
    requires FirstAbort(a) == |a|
    requires b != [] && b[0].Aborted?
    ensures FirstAbort(a + b) == |a| && (a + b)[..|a|] == a
  {
    if a != [] {
      assert (a + b)[1..] == a[1..] + b;
      AbortAfterClean(a[1..], b);
    }
  }

  /** Whatever happens, the scrape returns a prefix of the records of all rows. */
  lemma ScrapeIsPrefix(rows: seq<Row>)
    ensures var out := Scrape(Loaded(rows));
            |out| <= |Records(Outcomes(rows))| && out == Records(Outcomes(rows))[..|out|]
  {
    var outs := Outcomes(rows);
    var k := FirstAbort(outs);
    assert outs == outs[..k] + outs[k..];
    RecordsAppend(outs[..k], outs[k..]);
  }

  /**
   * Three rows of which the middle one has no name element: the scrape
   * reports the first and the third, in that order.
   */
  lemma MiddleRowWithoutName(r1: Row, r2: Row, r3: Row)
    requires !r1.nameFault && !r2.nameFault && !r3.nameFault
    requires ExpiryOf(r1).Resolved? && ExpiryOf(r2).Resolved? && ExpiryOf(r3).Resolved?
    requires r2.name == Absent && NameOf(r1.name) != NameNotFound && NameOf(r3.name) != NameNotFound
    ensures Scrape(Loaded([r1, r2, r3])) ==
            [Record(NameOf(r1.name), ExpiryOf(r1).value), Record(NameOf(r3.name), ExpiryOf(r3).value)]
  {
    var a, b := Record(NameOf(r1.name), ExpiryOf(r1).value), Record(NameOf(r3.name), ExpiryOf(r3).value);
    var o1, o2, o3 := OutcomeOf(r1), OutcomeOf(r2), OutcomeOf(r3);
    assert o1 == Emitted(a) && o2 == Skipped && o3 == Emitted(b);
    ScrapeThree(r1, r2, r3, a, b);
  }

  lemma ScrapeThree(r1: Row, r2: Row, r3: Row, a: Record, b: Record)
    requires OutcomeOf(r1) == Emitted(a) && OutcomeOf(r2) == Skipped && OutcomeOf(r3) == Emitted(b)
    ensures Scrape(Loaded([r1, r2, r3])) == [a, b]
  {
    ThreeOutcomes(r1, r2, r3);
    SkipInTheMiddle(a, b);
  }

  lemma ThreeOutcomes(r1: Row, r2: Row, r3: Row)
    ensures Outcomes([r1, r2, r3]) == [OutcomeOf(r1), OutcomeOf(r2), OutcomeOf(r3)]
  {
    var rows := [r1, r2, r3];
    assert rows[..2] == [r1, r2] && [r1, r2][..1] == [r1] && [r1][..0] == [];
    assert Outcomes([r1]) == [OutcomeOf(r1)];
    assert Outcomes([r1, r2]) == [OutcomeOf(r1), OutcomeOf(r2)];
  }

  lemma SkipInTheMiddle(a: Record, b: Record)
    ensures var outs := [Emitted(a), Skipped, Emitted(b)];
            FirstAbort(outs) == 3 && Records(outs[..3]) == [a, b]
  {
    var outs := [Emitted(a), Skipped, Emitted(b)];
    assert outs[1..][1..][1..] == [];
    assert outs[..3] == outs;
    assert outs[..2] == [Emitted(a), Skipped] && outs[..2][..1] == [Emitted(a)] && outs[..2][..1][..0] == [];
    assert Records([Emitted(a)]) == [a];
    assert Records([Emitted(a), Skipped]) == [a];
  }
}
