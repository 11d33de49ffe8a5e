/**
 * fetch_data: one request per ticker, in list order. An "Error Message" in
 * the reply skips the ticker, a "Note" (rate limit) abandons the remaining
 * tickers, a reply without "Time Series (Daily)" or a failed request skips
 * the ticker, and a good reply appends that ticker's frame tagged with its
 * symbol. No API key, or no frame at all, gives None.
 */
module Extract {
  import opened Wrappers
  import opened Frame

  /** One entry of "Time Series (Daily)": the date and the five fields as text. */
  datatype DailyEntry = DailyEntry(day: int, open: string, high: string, low: string, close: string, volume: string)

  /** What one request yields. */
  datatype Response =
    | TransportFailure   // the request raised, the status was an HTTP error, or the body was not JSON
    | Body(hasErrorMessage: bool, hasNote: bool, series: Option<seq<DailyEntry>>)

  /** What the loop does with one reply. */
  datatype Step = Skip | Abandon | Keep(series: seq<DailyEntry>)

  /** "Error Message" is checked before "Note", and both before the series lookup. */
  function Classify(r: Response): Step {
    match r
    case TransportFailure => Skip
    case Body(error, note, series) =>
      if error then Skip
      else if note then Abandon
      else match series
        case None => Skip
        case Some(s) => Keep(s)
  }

  /** DataFrame.from_dict(series, orient='index') with df['symbol'] = stock. */
  function Tag(stock: string, series: seq<DailyEntry>): (rows: seq<Bar>)
    ensures |rows| == |series|
    ensures forall i :: 0 <= i < |series| ==> rows[i].symbol == stock && rows[i].timestamp == series[i].day
  {
    seq(|series|, i requires 0 <= i < |series| =>
      Bar(series[i].day, stock, Text(series[i].open), Text(series[i].high), Text(series[i].low),
          Text(series[i].close), Text(series[i].volume)))
  }

  /** The frames collected and the number of requests sent. */
  datatype Crawl = Crawl(frames: seq<seq<Bar>>, requests: nat)

  /** The loop over tickers, one reply per ticker. */
  function CrawlTickers(tickers: seq<string>, responses: seq<Response>): Crawl
    requires |tickers| == |responses|
  {
    if tickers == [] then Crawl([], 0)
    else
      var rest := CrawlTickers(tickers[1..], responses[1..]);
      match Classify(responses[0])
      case Abandon => Crawl([], 1)
      case Skip => Crawl(rest.frames, rest.requests + 1)
      case Keep(s) => Crawl([Tag(tickers[0], s)] + rest.frames, rest.requests + 1)
  }

  /** pd.concat of the collected frames. */
  function Concat(frames: seq<seq<Bar>>): seq<Bar> {
    if frames == [] then [] else frames[0] + Concat(frames[1..])
  }

  predicate HasKey(apiKey: Option<string>) {
    apiKey.Some? && apiKey.value != ""
  }

  /**
   * fetch_data. `responses[i]` is what the request for `tickers[i]` would
   * yield; `requests` counts the requests actually sent.
   */
  method FetchData(apiKey: Option<string>, tickers: seq<string>, responses: seq<Response>)
    returns (data: Option<seq<Bar>>, requests: nat)
    requires |tickers| == |responses|
    ensures !HasKey(apiKey) ==> data.None? && requests == 0
    ensures HasKey(apiKey) ==>
      var run := CrawlTickers(tickers, responses);
      && requests == run.requests
      && data == if run.frames == [] then None else Some(Concat(run.frames))
  {
    if !HasKey(apiKey) {
      return None, 0;
    }
    var allStockData: seq<seq<Bar>> := [];
    requests := 0;
    var i := 0;
    while i < |tickers|
      invariant 0 <= i <= |tickers| && requests == i
      invariant i == |tickers| ==> tickers[i..] == []
      invariant CrawlTickers(tickers, responses) ==
        var rest := CrawlTickers(tickers[i..], responses[i..]);
        Crawl(allStockData + rest.frames, i + rest.requests)
    {
      var stock, reply := tickers[i], responses[i];
      assert tickers[i..][1..] == tickers[i + 1..] && responses[i..][1..] == responses[i + 1..];
      requests := requests + 1;
      if reply.TransportFailure? {
        i := i + 1;
        continue;
      }
      if reply.hasErrorMessage {
        i := i + 1;
        continue;
      }
      if reply.hasNote {
        assert CrawlTickers(tickers[i..], responses[i..]) == Crawl([], 1);
        break;
      }
      if reply.series.None? {
        i := i + 1;
        continue;
      }
      allStockData := allStockData + [Tag(stock, reply.series.value)];
      i := i + 1;
    }
    assert CrawlTickers(tickers, responses).frames == allStockData;
    if allStockData == [] {
      return None, requests;
    }
    data := Some(Concat(allStockData));
  }

  // ---------------------------------------------------------------------
  // Properties of the loop
  // ---------------------------------------------------------------------

  predicate AbandonedBefore(responses: seq<Response>, i: nat) {
    exists j :: 0 <= j < i && j < |responses| && Classify(responses[j]).Abandon?
  }

  function Remove<T>(s: seq<T>, i: nat): seq<T>
    requires i < |s|
  {
    s[..i] + s[i + 1..]
  }

  /** A rate-limit note ends the run: no later ticker is requested or matters. */
  lemma {:induction false} AbandonEndsRun(tickers: seq<string>, responses: seq<Response>, i: nat)
    requires |tickers| == |responses| && i < |tickers|
    requires Classify(responses[i]).Abandon? && !AbandonedBefore(responses, i)
    ensures CrawlTickers(tickers, responses).requests == i + 1
    ensures CrawlTickers(tickers, responses) == CrawlTickers(tickers[..i + 1], responses[..i + 1])
    decreases i
  {
    if i > 0 {
      assert !AbandonedBefore(responses[1..], i - 1) by {
        forall j | 0 <= j < i - 1 ensures !Classify(responses[1..][j]).Abandon? {
          assert responses[1..][j] == responses[j + 1];
        }
      }
      AbandonEndsRun(tickers[1..], responses[1..], i - 1);
      assert tickers[..i + 1][1..] == tickers[1..][..i] && responses[..i + 1][1..] == responses[1..][..i];
    }
  }

  /**
   * A skipped ticker (error message, missing series, failed request) drops out
   * of the result and nothing else changes; it costs one request unless the
   * run was abandoned before it.
   */
  lemma {:induction false} SkipDropsOnlyThatTicker(tickers: seq<string>, responses: seq<Response>, i: nat)
    requires |tickers| == |responses| && i < |tickers|
    requires Classify(responses[i]).Skip?
    ensures CrawlTickers(tickers, responses).frames == CrawlTickers(Remove(tickers, i), Remove(responses, i)).frames
    ensures CrawlTickers(tickers, responses).requests ==
      CrawlTickers(Remove(tickers, i), Remove(responses, i)).requests + (if AbandonedBefore(responses, i) then 0 else 1)
    decreases i
  {
    if i == 0 {
      assert Remove(tickers, 0) == tickers[1..] && Remove(responses, 0) == responses[1..];
    } else {
      var ts, rs := Remove(tickers, i), Remove(responses, i);
      assert ts[0] == tickers[0] && rs[0] == responses[0];
      assert ts[1..] == Remove(tickers[1..], i - 1) && rs[1..] == Remove(responses[1..], i - 1);
      SkipDropsOnlyThatTicker(tickers[1..], responses[1..], i - 1);
      assert AbandonedBefore(responses, i) <==>
        Classify(responses[0]).Abandon? || AbandonedBefore(responses[1..], i - 1)
      by {
        if AbandonedBefore(responses[1..], i - 1) {
          var j :| 0 <= j < i - 1 && j < |responses[1..]| && Classify(responses[1..][j]).Abandon?;
          assert responses[j + 1] == responses[1..][j];
        }
        if AbandonedBefore(responses, i) && !Classify(responses[0]).Abandon? {
          var j :| 0 <= j < i && j < |responses| && Classify(responses[j]).Abandon?;
          assert responses[1..][j - 1] == responses[j];
        }
      }
    }
  }

  /** An "Error Message" reply is skipped even when it also carries a "Note". */
  lemma ErrorMessageOutranksNote(tickers: seq<string>, responses: seq<Response>, i: nat)
    requires |tickers| == |responses| && i < |tickers|
    requires responses[i].Body? && responses[i].hasErrorMessage
    ensures CrawlTickers(tickers, responses).frames == CrawlTickers(Remove(tickers, i), Remove(responses, i)).frames
    ensures !AbandonedBefore(responses, i) ==>
      CrawlTickers(tickers, responses).requests == CrawlTickers(Remove(tickers, i), Remove(responses, i)).requests + 1
  {
    SkipDropsOnlyThatTicker(tickers, responses, i);
  }

  /** When every reply is good, each ticker's frame appears, in ticker order, tagged with its symbol. */
  lemma {:induction false} AllGoodKeepsEveryTicker(tickers: seq<string>, responses: seq<Response>)
    requires |tickers| == |responses|
    requires forall i :: 0 <= i < |responses| ==> Classify(responses[i]).Keep?
    ensures CrawlTickers(tickers, responses).requests == |tickers|
    ensures CrawlTickers(tickers, responses).frames ==
      seq(|tickers|, i requires 0 <= i < |tickers| => Tag(tickers[i], Classify(responses[i]).series))
    decreases |tickers|
  {
    if tickers != [] {
      AllGoodKeepsEveryTicker(tickers[1..], responses[1..]);
    }
  }

  /** Every collected frame is one ticker's good reply, tagged with that ticker. */
  lemma {:induction false} FramesComeFromGoodReplies(tickers: seq<string>, responses: seq<Response>)
    requires |tickers| == |responses|
    ensures forall f :: f in CrawlTickers(tickers, responses).frames ==>
      exists k :: 0 <= k < |tickers| && Classify(responses[k]).Keep? && f == Tag(tickers[k], Classify(responses[k]).series)
    decreases |tickers|
  {
    if tickers != [] {
      FramesComeFromGoodReplies(tickers[1..], responses[1..]);
      forall f | f in CrawlTickers(tickers[1..], responses[1..]).frames
        ensures exists k :: 0 <= k < |tickers| && Classify(responses[k]).Keep? && f == Tag(tickers[k], Classify(responses[k]).series)
      {
        var k :| 0 <= k < |tickers[1..]| && Classify(responses[1..][k]).Keep?
          && f == Tag(tickers[1..][k], Classify(responses[1..][k]).series);
        assert tickers[1..][k] == tickers[k + 1] && responses[1..][k] == responses[k + 1];
      }
    }
  }
}
