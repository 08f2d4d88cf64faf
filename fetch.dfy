/** The `fetchAllData` loop of src/App.jsx: pages 1, 2, ... are requested one
    at a time until the page counter passes the page count that the latest
    response reported, or until a request fails. The network is a parameter:
    `server(p)` is what the request for page p yields. */
module Fetch {
  import opened Characters

  /** The outcome of one request: the response's `info.pages` and `results`,
      or a failure of any kind (network, status code, malformed body). */
  datatype PageResponse = Fetched(pages: int, results: seq<Character>) | Failed

  /** Requests for pages 1..n all succeed. */
  ghost predicate AllFetched(server: int -> PageResponse, n: int)
  {
    forall p :: 1 <= p <= n ==> server(p).Fetched?
  }

  /** The results of pages 1..n, concatenated in page order. */
  function Gathered(server: int -> PageResponse, n: nat): seq<Character>
    requires AllFetched(server, n)
  {
    if n == 0 then [] else Gathered(server, n - 1) + server(n).results
  }

  /** Accumulation only appends: what pages 1..m gave is a prefix of what
      pages 1..n give. */
  lemma {:induction false} GatheredExtends(server: int -> PageResponse, m: nat, n: nat)
    requires m <= n && AllFetched(server, n)
    ensures Gathered(server, m) <= Gathered(server, n)
    decreases n
  {
    if m < n {
      GatheredExtends(server, m, n - 1);
    }
  }

  /** The loop. `requests` is how many pages were asked for: pages 1 to
      `requests`, in order, and nothing after. Every page before the last one
      asked for succeeded and reported more pages than its own number; the
      run fails exactly when the last request failed, and then keeps what
      the earlier pages gave; otherwise the last response reported no page
      beyond itself and every page's results are kept. The loop terminates
      only because the server reports finitely many pages, at most `bound`. */
  method FetchAll(server: int -> PageResponse, ghost bound: nat)
    returns (allData: seq<Character>, failed: bool, requests: nat)
    requires forall p :: server(p).Fetched? ==> server(p).pages <= bound
    ensures 1 <= requests
    ensures AllFetched(server, requests - 1)
    ensures forall p :: 1 <= p < requests ==> server(p).pages > p
    ensures failed <==> server(requests).Failed?
    ensures failed ==> allData == Gathered(server, requests - 1)
    ensures !failed ==> allData == Gathered(server, requests) && server(requests).pages <= requests
  {
    allData := [];
    var page := 1;
    var totalPages := 1;
    failed := false;
    ghost var cap := if bound < 1 then 1 else bound;
    while page <= totalPages
      invariant 1 <= page <= cap + 1
      invariant totalPages <= cap
      invariant AllFetched(server, page - 1)
      invariant allData == Gathered(server, page - 1)
      invariant forall p :: 1 <= p < page - 1 ==> server(p).pages > p
      invariant page == 1 ==> totalPages == 1
      invariant page > 1 ==> totalPages == server(page - 1).pages
      decreases cap + 1 - page
    {
      var response := server(page);
      if response.Failed? {
        failed := true;
        break;
      }
      totalPages := response.pages;
      allData := allData + response.results;
      page := page + 1;
    }
    requests := if failed then page else page - 1;
  }
}
