/** `scrapePage`: the listing ids zipped, by position, with the metadata
    fetched for each of them. The requests are inputs; `Promise.all` and
    the rethrow make any single failure fail the whole page. */
module Scrape {
  import opened Wrappers
  import opened ModChanges
  import opened ModDates

  /** Why a request failed; the model does not look inside. */
  datatype FetchError = FetchError(reason: string)

  /** "Something wrong happened trying to scrape page N." */
  datatype ScrapeError = ScrapeFailed(pageNumber: nat)

  /** Every request succeeded. */
  predicate AllFetched(fetched: seq<Result<Meta, FetchError>>) {
    forall i | 0 <= i < |fetched| :: fetched[i].Ok?
  }

  /** The record for each listing id, built from the metadata at the same
      position; the metadata's `url` is not copied into it. */
  function Zip(ids: seq<string>, metas: seq<Meta>): (s: seq<Mod>)
    requires |ids| == |metas|
    ensures |s| == |ids|
    ensures forall i | 0 <= i < |s| :: s[i].id == ids[i] && s[i].title == metas[i].title && s[i].lastUpdated == metas[i].lastUpdated
  {
    if ids == [] then []
    else [Mod(ids[0], metas[0].title, metas[0].lastUpdated)] + Zip(ids[1..], metas[1..])
  }

  /** The values of requests that all succeeded, in request order. */
  function Values(fetched: seq<Result<Meta, FetchError>>): (metas: seq<Meta>)
    requires AllFetched(fetched)
    ensures |metas| == |fetched|
    ensures forall i | 0 <= i < |metas| :: metas[i] == fetched[i].value
  {
    if fetched == [] then [] else [fetched[0].value] + Values(fetched[1..])
  }

  /** `scrapePage(pageNumber)` given the listing request's outcome (the ids
      its page lists) and one metadata outcome per listed id. */
  function ScrapePage(pageNumber: nat, listing: Result<seq<string>, FetchError>,
                      fetched: seq<Result<Meta, FetchError>>): (r: Result<seq<Mod>, ScrapeError>)
    requires listing.Ok? ==> |fetched| == |listing.value|
    ensures r.Ok? <==> listing.Ok? && AllFetched(fetched)
    ensures r.Err? ==> r.error == ScrapeFailed(pageNumber)
    ensures r.Ok? ==> |r.value| == |listing.value|
    ensures r.Ok? ==> forall i | 0 <= i < |r.value| ::
      r.value[i] == Mod(listing.value[i], fetched[i].value.title, fetched[i].value.lastUpdated)
  {
    if listing.Err? || !AllFetched(fetched) then Err(ScrapeFailed(pageNumber))
    else Ok(Zip(listing.value, Values(fetched)))
  }

  /** One failed item request fails the page: there is no partial snapshot. */
  lemma OneFailureFailsPage(pageNumber: nat, ids: seq<string>, fetched: seq<Result<Meta, FetchError>>, k: nat)
    requires |fetched| == |ids| && k < |fetched| && fetched[k].Err?
    ensures ScrapePage(pageNumber, Ok(ids), fetched) == Err(ScrapeFailed(pageNumber))
  {
  }
}
