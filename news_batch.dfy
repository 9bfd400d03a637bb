/**
 * The enrichment batch (`generateStaticNews` in scripts/generate-news.js): one
 * `extractMetadata` call per input record, strictly in order, with a pause
 * between consecutive calls, and the enriched list written out at the end.
 *
 * Reading and parsing the input file is modelled by `input` (`None` when that
 * fails), the world's answer for the i-th record by `world[i]`, and the final
 * write by `writeSucceeds`. Pauses are recorded in a trace instead of being taken.
 */
module NewsBatch {
  import opened Wrappers
  import opened JsValues
  import opened NewsMetadata

  /** The pause between two consecutive requests, in milliseconds. */
  const DelayMs: nat := 3000

  /** One observable step of a run: the request for record `index`, or a pause. */
  datatype Step = Request(index: nat) | Pause(ms: nat)

  /** What the run reports at the end. */
  datatype Summary = Summary(total: nat, succeeded: nat, fellBack: nat)

  /** The metadata object as the JavaScript code builds it; `error` is present only on a fallback. */
  function MetadataRecord(md: Metadata): (r: Record)
    ensures "error" in r <==> md.error
  {
    var base := map[
      "title" := JString(md.title),
      "description" := JString(md.description),
      "image" := (match md.image case Some(i) => JString(i) case None => JNull),
      "domain" := JString(md.domain),
      "publishDate" := JString(md.publishDate)];
    if md.error then base["error" := JBool(true)] else base
  }

  /** `{...item, ...metadata}`. */
  function Enrich(item: Record, md: Metadata): Record
  {
    Spread(item, MetadataRecord(md))
  }

  /** What `extractMetadata` settles to for one record: its metadata, or `None` when it rejects. */
  type Extractor = Response -> Option<Metadata>

  /** `extractMetadata` as the script calls it; each call reads the clock itself. */
  const ScriptExtractor: Extractor := ExtractMetadata

  /** The metadata of every record, or `None` as soon as one call rejects. */
  function ExtractAll(world: seq<Response>, extract: Extractor): (r: Option<seq<Metadata>>)
    ensures r.Some? <==> forall i | 0 <= i < |world| :: extract(world[i]).Some?
    ensures r.Some? ==> |r.value| == |world|
    ensures r.Some? ==> forall i | 0 <= i < |world| :: Some(r.value[i]) == extract(world[i])
  {
    if world == [] then Some([])
    else
      match extract(world[0])
      case None => None
      case Some(md) =>
        match ExtractAll(world[1..], extract)
        case None => None
        case Some(rest) => Some([md] + rest)
  }

  /** `[f(xs[0], ys[0]), f(xs[1], ys[1]), …]`. */
  function MapPairs<A, B, C>(f: (A, B) -> C, xs: seq<A>, ys: seq<B>): (r: seq<C>)
    requires |xs| == |ys|
    ensures |r| == |xs|
    ensures forall i | 0 <= i < |xs| :: r[i] == f(xs[i], ys[i])
  {
    if xs == [] then [] else [f(xs[0], ys[0])] + MapPairs(f, xs[1..], ys[1..])
  }

  /** The enriched records: each input record overridden by its own metadata, in input order. */
  function EnrichAll(items: seq<Record>, mds: seq<Metadata>): (r: seq<Record>)
    requires |items| == |mds|
    ensures |r| == |items|
    ensures forall i | 0 <= i < |items| :: r[i] == Enrich(items[i], mds[i])
  {
    MapPairs(Enrich, items, mds)
  }

  /** How many metadata objects carry `error`. */
  function FallbackCount(mds: seq<Metadata>): (n: nat)
    ensures n <= |mds|
  {
    if mds == [] then 0 else (if mds[0].error then 1 else 0) + FallbackCount(mds[1..])
  }

  /** The requests for the first `n` records with a pause between each two of them. */
  function PacedTrace(n: nat): seq<Step>
  {
    if n == 0 then [] else if n == 1 then [Request(0)] else PacedTrace(n - 1) + [Pause(DelayMs), Request(n - 1)]
  }

  /** Index of the first record whose call rejects, if any. */
  function FirstRejected(world: seq<Response>, extract: Extractor): (r: Option<nat>)
    ensures r.Some? ==> r.value < |world| && extract(world[r.value]).None?
                        && forall i | 0 <= i < r.value :: extract(world[i]).Some?
    ensures r.None? ==> forall i | 0 <= i < |world| :: extract(world[i]).Some?
  {
    if world == [] then None
    else if extract(world[0]).None? then Some(0)
    else match FirstRejected(world[1..], extract) case None => None case Some(k) => Some(k + 1)
  }

  /**
   * The `for` loop of `generateStaticNews()`: requests the metadata of each
   * record in order, pausing between consecutive requests, merges each record
   * with its metadata and counts successes and fallbacks. `rejected` is the
   * index of the record whose call rejected, which ends the loop at once.
   */
  method ProcessArticles(items: seq<Record>, world: seq<Response>, extract: Extractor)
    returns (enriched: seq<Record>, successCount: nat, errorCount: nat, trace: seq<Step>, rejected: Option<nat>)
    requires |world| == |items|
    ensures rejected.Some? <==> ExtractAll(world, extract).None?
    ensures rejected.Some? ==> rejected == FirstRejected(world, extract) && trace == PacedTrace(rejected.value + 1)
    ensures rejected.None? ==>
              && enriched == EnrichAll(items, ExtractAll(world, extract).value)
              && |enriched| == |items|
              && errorCount == FallbackCount(ExtractAll(world, extract).value)
              && successCount == |items| - errorCount
              && trace == PacedTrace(|items|)
  {
    trace := [];
    enriched := [];
    var mds: seq<Metadata> := [];
    successCount, errorCount := 0, 0;
    for i := 0 to |items|
      invariant |mds| == i && Progress(items, world, extract, mds, enriched, successCount, errorCount)
      invariant trace == LoopTrace(i, |items|)
    {
      LoopTraceStep(i, |items|);
      trace := trace + [Request(i)];
      var metadata := extract(world[i]);
      if metadata.None? {
        FirstRejectedAt(world, extract, i);
        return enriched, successCount, errorCount, trace, Some(i);
      }
      ProgressStep(items, world, extract, mds, enriched, successCount, errorCount, metadata.value);
      enriched := enriched + [Enrich(items[i], metadata.value)];
      mds := mds + [metadata.value];
      if metadata.value.error {
        errorCount := errorCount + 1;
      } else {
        successCount := successCount + 1;
      }
      if |enriched| < |items| {
        trace := trace + [Pause(DelayMs)];
      }
    }
    ProgressDone(items, world, extract, mds, enriched, successCount, errorCount);
    rejected := None;
  }

  /**
   * `generateStaticNews()`. The run returns the enriched records when every call
   * resolved and the output was written, and `[]` otherwise; the summary is
   * reported only in the first case. Requests are made in order with a pause
   * between consecutive ones, and a rejected call ends the run at once.
   */
  method GenerateStaticNews(input: Option<seq<Record>>, world: seq<Response>, writeSucceeds: bool)
    returns (result: seq<Record>, summary: Option<Summary>, trace: seq<Step>)
    requires input.Some? ==> |world| == |input.value|
    ensures input.None? ==> result == [] && summary.None? && trace == []
    ensures input.Some? && ExtractAll(world, ScriptExtractor).None? ==>
              result == [] && summary.None? && trace == PacedTrace(FirstRejected(world, ScriptExtractor).value + 1)
    ensures input.Some? && ExtractAll(world, ScriptExtractor).Some? ==> trace == PacedTrace(|world|)
    ensures input.Some? && ExtractAll(world, ScriptExtractor).Some? && writeSucceeds ==>
              && result == EnrichAll(input.value, ExtractAll(world, ScriptExtractor).value)
              && summary.Some? && summary.value.total == |input.value|
              && summary.value.fellBack == FallbackCount(ExtractAll(world, ScriptExtractor).value)
              && summary.value.succeeded == |input.value| - summary.value.fellBack
    ensures !writeSucceeds ==> result == [] && summary.None?
  {
    if input.None? {
      // Reading or parsing the input threw.
      return [], None, [];
    }
    var enriched, successCount, errorCount, rejected;
    enriched, successCount, errorCount, trace, rejected := ProcessArticles(input.value, world, ScriptExtractor);
    if rejected.Some? || !writeSucceeds {
      // The rejection or the failed write is caught and the run returns [].
      return [], None, trace;
    }
    result := enriched;
    summary := Some(Summary(|enriched|, successCount, errorCount));
  }

  // ---------------------------------------------------------------------------
  // Lemmas the loop relies on

  /** `mds` are the metadata of the first `|mds|` records, each of whose calls resolved. */
  predicate ExtractedPrefix(world: seq<Response>, extract: Extractor, mds: seq<Metadata>)
  {
    |mds| <= |world| && forall k | 0 <= k < |mds| :: Some(mds[k]) == extract(world[k])
  }

  lemma ExtractedPrefixSnoc(world: seq<Response>, extract: Extractor, mds: seq<Metadata>, md: Metadata)
    requires ExtractedPrefix(world, extract, mds) && |mds| < |world|
    requires Some(md) == extract(world[|mds|])
    ensures ExtractedPrefix(world, extract, mds + [md])
  {
  }

  /** After `|mds|` iterations: the records so far are enriched and counted. */
  predicate Progress(items: seq<Record>, world: seq<Response>, extract: Extractor, mds: seq<Metadata>,
                     enriched: seq<Record>, successCount: nat, errorCount: nat)
  {
    && |mds| <= |items| && |enriched| == |mds| && ExtractedPrefix(world, extract, mds)
    && enriched == EnrichAll(items[..|mds|], mds)
    && errorCount == FallbackCount(mds) && successCount + errorCount == |mds|
  }

  lemma ProgressStep(items: seq<Record>, world: seq<Response>, extract: Extractor, mds: seq<Metadata>,
                     enriched: seq<Record>, successCount: nat, errorCount: nat, md: Metadata)
    requires |world| == |items| && |mds| < |items|
    requires Progress(items, world, extract, mds, enriched, successCount, errorCount)
    requires Some(md) == extract(world[|mds|])
    ensures Progress(items, world, extract, mds + [md], enriched + [Enrich(items[|mds|], md)],
                     successCount + (if md.error then 0 else 1), errorCount + (if md.error then 1 else 0))
  {
    var i := |mds|;
    FallbackCountSnoc(mds, md);
    TakeSnoc(items, i);
    EnrichAllSnoc(items[..i], mds, items[i], md);
    ExtractedPrefixSnoc(world, extract, mds, md);
  }

  lemma ProgressDone(items: seq<Record>, world: seq<Response>, extract: Extractor, mds: seq<Metadata>,
                     enriched: seq<Record>, successCount: nat, errorCount: nat)
    requires |world| == |items| == |mds|
    requires Progress(items, world, extract, mds, enriched, successCount, errorCount)
    ensures ExtractAll(world, extract) == Some(mds) && enriched == EnrichAll(items, mds)
  {
    TakeAll(items);
    ExtractAllAgrees(world, extract, mds);
  }

  lemma TakeSnoc<T>(s: seq<T>, i: nat)
    requires i < |s|
    ensures s[..i + 1] == s[..i] + [s[i]]
  {
  }

  lemma TakeAll<T>(s: seq<T>)
    ensures s[..|s|] == s
  {
  }

  /** The trace after `i` iterations of a loop over `n` records: a pause follows every request but the last. */
  function LoopTrace(i: nat, n: nat): seq<Step>
  {
    PacedTrace(i) + (if 0 < i < n then [Pause(DelayMs)] else [])
  }

  lemma LoopTraceStep(i: nat, n: nat)
    requires i < n
    ensures LoopTrace(i, n) + [Request(i)] == PacedTrace(i + 1)
    ensures PacedTrace(i + 1) + (if i + 1 < n then [Pause(DelayMs)] else []) == LoopTrace(i + 1, n)
  {
  }

  lemma FirstRejectedAt(world: seq<Response>, extract: Extractor, i: nat)
    requires i < |world| && extract(world[i]).None?
    requires forall k | 0 <= k < i :: extract(world[k]).Some?
    ensures FirstRejected(world, extract) == Some(i)
  {
    var r := FirstRejected(world, extract);
    assert r.Some?;
    assert !(r.value < i) && !(i < r.value);
  }

  lemma {:induction false} FallbackCountSnoc(mds: seq<Metadata>, md: Metadata)
    ensures FallbackCount(mds + [md]) == FallbackCount(mds) + (if md.error then 1 else 0)
    decreases |mds|
  {
    if mds != [] {
      assert (mds + [md])[1..] == mds[1..] + [md];
      FallbackCountSnoc(mds[1..], md);
    }
  }

  lemma EnrichAllSnoc(items: seq<Record>, mds: seq<Metadata>, item: Record, md: Metadata)
    requires |items| == |mds|
    ensures EnrichAll(items + [item], mds + [md]) == EnrichAll(items, mds) + [Enrich(item, md)]
  {
  }

  lemma ExtractAllAgrees(world: seq<Response>, extract: Extractor, mds: seq<Metadata>)
    requires |mds| == |world| && ExtractedPrefix(world, extract, mds)
    ensures ExtractAll(world, extract) == Some(mds)
  {
    var r := ExtractAll(world, extract);
    assert r.Some?;
    assert forall k | 0 <= k < |world| :: r.value[k] == mds[k];
    assert r.value == mds;
  }

  // ---------------------------------------------------------------------------
  // Properties of a run

  /**
   * The pacing: the k-th request is for record k, requests and pauses
   * alternate, and there is no pause before the first request nor after the
   * last one, so `n` requests come with `n - 1` pauses.
   */
  lemma {:induction false} PacedTraceShape(n: nat)
    ensures |PacedTrace(n)| == (if n == 0 then 0 else 2 * n - 1)
    ensures forall j | 0 <= j < |PacedTrace(n)| ::
              PacedTrace(n)[j] == (if j % 2 == 0 then Request(j / 2) else Pause(DelayMs))
  {
    if n > 1 {
      PacedTraceShape(n - 1);
      var t := PacedTrace(n - 1);
      assert PacedTrace(n) == t + [Pause(DelayMs), Request(n - 1)];
      assert |t| == 2 * n - 3;
    }
  }

  /** The number of records whose page could not be fetched or answered with a non-OK status. */
  function FailedFetches(world: seq<Response>): (n: nat)
    ensures n <= |world|
  {
    if world == [] then 0 else (if world[0].fetch.Page? then 0 else 1) + FailedFetches(world[1..])
  }

  /** The reported fallback count is exactly the number of failed fetches. */
  lemma {:induction false} FallbackCountIsFailedFetches(world: seq<Response>)
    requires ExtractAll(world, ScriptExtractor).Some?
    ensures FallbackCount(ExtractAll(world, ScriptExtractor).value) == FailedFetches(world)
    decreases |world|
  {
    if world != [] {
      var extract := ScriptExtractor;
      var md := extract(world[0]).value;
      var rest := ExtractAll(world[1..], extract);
      assert rest.Some?;
      assert ExtractAll(world, extract).value == [md] + rest.value;
      assert ([md] + rest.value)[1..] == rest.value;
      FallbackCountIsFailedFetches(world[1..]);
    }
  }

  /** The run ends in a rejection exactly when some record's URL does not parse, and then at the first such record. */
  lemma ScriptRejectsOnBadUrl(world: seq<Response>)
    ensures ExtractAll(world, ScriptExtractor).None? <==> exists i | 0 <= i < |world| :: world[i].url.None?
    ensures forall i | 0 <= i < |world| :: ScriptExtractor(world[i]).None? <==> world[i].url.None?
  {
  }

  /**
   * Every record is stamped with the date its own call read, so a run that
   * crosses midnight stamps its later records with the later date.
   */
  lemma PublishDateIsCallDate(world: seq<Response>)
    requires ExtractAll(world, ScriptExtractor).Some?
    ensures forall i | 0 <= i < |world| :: ExtractAll(world, ScriptExtractor).value[i].publishDate == world[i].today
  {
    var mds := ExtractAll(world, ScriptExtractor).value;
    forall i | 0 <= i < |world|
      ensures mds[i].publishDate == world[i].today
    {
      assert Some(mds[i]) == ExtractMetadata(world[i]);
    }
  }

  /** Metadata fields override the record's own; every other field of the record is kept. */
  lemma EnrichOverrides(item: Record, md: Metadata)
    ensures var r := Enrich(item, md);
            && r.Keys == item.Keys + MetadataRecord(md).Keys
            && r["title"] == JString(md.title) && r["domain"] == JString(md.domain)
            && r["publishDate"] == JString(md.publishDate)
            && (forall k | k in item && k !in MetadataRecord(md) :: r[k] == item[k])
  {
  }

  /**
   * A record that already carries an `error` field keeps it when its metadata
   * was extracted successfully: the summary counts the metadata flag, not the
   * field of the written record.
   */
  lemma ItemErrorSurvivesSuccess(item: Record, md: Metadata)
    requires !md.error && "error" in item
    ensures Enrich(item, md)["error"] == item["error"]
  {
  }
}
