/** The App component of src/App.jsx: its state, the effects that keep the
    derived state (species options, filtered list, emptiness flag, current
    page) in step with the data and the criteria, the current-page slice,
    and which of the three screens is shown. */
module AppState {
  import opened Collections
  import opened Characters
  import opened Fetch
  import opened Pagination

  /** Rows per table page. */
  const PageSize := 6

  /** `filteredData.slice(startIndex, startIndex + pageSize)` with
      `startIndex = (currentPage - 1) * pageSize`. */
  function PageRows(filtered: seq<Character>, currentPage: int): (r: seq<Character>)
    ensures |r| <= PageSize
  {
    var start := (currentPage - 1) * PageSize;
    Slice(filtered, start, start + PageSize)
  }

  function Min(a: int, b: int): int
  {
    if a < b then a else b
  }

  function Max(a: int, b: int): int
  {
    if a < b then b else a
  }

  /** Page p (from 1) shows the items at positions (p-1)*6 up to p*6, as
      many of them as exist, so a page past the last one is empty. */
  lemma PageRowsAreTheWindow(filtered: seq<Character>, currentPage: int)
    requires currentPage >= 1
    ensures |PageRows(filtered, currentPage)| == Max(0, Min(PageSize, |filtered| - (currentPage - 1) * PageSize))
    ensures forall i :: 0 <= i < |PageRows(filtered, currentPage)| ==>
              PageRows(filtered, currentPage)[i] == filtered[(currentPage - 1) * PageSize + i]
    ensures currentPage > TotalPages(|filtered|, PageSize) ==> PageRows(filtered, currentPage) == []
  {
    TotalPagesIsIntegerCeiling(|filtered|, PageSize);
    var t := TotalPages(|filtered|, PageSize);
    if currentPage > t {
      assert (currentPage - 1) * PageSize >= t * PageSize by {
        MultiplyMonotone(t, currentPage - 1, PageSize);
      }
    }
  }

  /** Pages 1..n shown one after another. */
  function PagesUpTo(filtered: seq<Character>, n: nat): seq<Character>
  {
    if n == 0 then [] else PagesUpTo(filtered, n - 1) + PageRows(filtered, n)
  }

  /** Paging through pages 1..n shows the first n*6 items (or all of them),
      each once and in order. */
  lemma {:induction false} PagesUpToIsPrefix(filtered: seq<Character>, n: nat)
    ensures PagesUpTo(filtered, n) == filtered[..Min(|filtered|, n * PageSize)]
  {
    if n > 0 {
      PagesUpToIsPrefix(filtered, n - 1);
      PageRowsAreTheWindow(filtered, n);
      var lo := Min(|filtered|, (n - 1) * PageSize);
      var hi := Min(|filtered|, n * PageSize);
      assert filtered[..hi] == filtered[..lo] + filtered[lo..hi];
    }
  }

  /** The pages 1..TotalPages together show the filtered list exactly. */
  lemma PagesCoverFilteredList(filtered: seq<Character>)
    ensures PagesUpTo(filtered, TotalPages(|filtered|, PageSize)) == filtered
  {
    TotalPagesIsIntegerCeiling(|filtered|, PageSize);
    PagesUpToIsPrefix(filtered, TotalPages(|filtered|, PageSize));
  }

  /** Thirteen items make three pages of 6, 6 and 1 rows. */
  lemma ThirteenItemsScenario(filtered: seq<Character>)
    requires |filtered| == 13
    ensures TotalPages(|filtered|, PageSize) == 3
    ensures |PageRows(filtered, 1)| == 6 && |PageRows(filtered, 2)| == 6 && |PageRows(filtered, 3)| == 1
    ensures PageRows(filtered, 4) == []
  {
    TotalPagesIsIntegerCeiling(13, PageSize);
    PageRowsAreTheWindow(filtered, 1);
    PageRowsAreTheWindow(filtered, 2);
    PageRowsAreTheWindow(filtered, 3);
    PageRowsAreTheWindow(filtered, 4);
  }

  /** What App renders: the spinner while loading, only the error message
      once a fetch has failed, otherwise the filter panel, the table with the
      current page's rows, and the pagination bar. */
  datatype Screen =
    | Spinner
    | ErrorMessage
    | TableView(rows: seq<Character>, noResults: bool, currentPage: int, totalPages: int)

  class App {
    var data: seq<Character>
    var isLoading: bool
    var loadFailed: bool
    var filteredData: seq<Character>
    var currentPage: int
    var filters: Criteria
    var sortKey: SortKey
    var noResults: bool

    /** The derived state agrees with the data and the criteria, and the
        current page is a real page (or page 1 when there are none). */
    ghost predicate Valid()
      reads this
    {
      && (isLoading ==> data == [] && filteredData == [] && !noResults && currentPage == 1)
      && (!isLoading ==> filteredData == Apply(data, filters, sortKey))
      && (!isLoading ==> (noResults <==> |filteredData| == 0))
      && 1 <= currentPage
      && (currentPage == 1 || currentPage <= TotalPages(|filteredData|, PageSize))
    }

    /** The initial state (App.jsx:17-53). */
    constructor ()
      ensures Valid()
      ensures isLoading && !loadFailed && data == [] && filteredData == []
      ensures filters == NoCriteria && sortKey == Unsorted && currentPage == 1
    {
      data := [];
      isLoading := true;
      loadFailed := false;
      filteredData := [];
      currentPage := 1;
      filters := NoCriteria;
      sortKey := Unsorted;
      noResults := false;
    }

    /** The filter effect (App.jsx:131-164): nothing while loading, else
        the derived list and the emptiness flag are recomputed. */
    method RefreshFilteredData()
      modifies this`filteredData, this`noResults
      ensures isLoading ==> filteredData == old(filteredData) && noResults == old(noResults)
      ensures !isLoading ==> filteredData == Apply(data, filters, sortKey)
      ensures !isLoading ==> (noResults <==> |filteredData| == 0)
    {
      if isLoading {
        return;
      }
      filteredData, noResults := FilterAndSort(data, filters, sortKey);
    }

    /** The mount-time fetch (App.jsx:101-126) followed by the effects that
        depend on `data`: the species options and the filtered list. */
    method Load(server: int -> PageResponse, ghost bound: nat) returns (requests: nat)
      requires Valid() && isLoading
      requires forall p :: server(p).Fetched? ==> server(p).pages <= bound
      modifies this
      ensures Valid() && !isLoading
      ensures 1 <= requests && AllFetched(server, requests - 1)
      ensures forall p :: 1 <= p < requests ==> server(p).pages > p
      ensures loadFailed <==> server(requests).Failed?
      ensures !loadFailed ==> server(requests).pages <= requests
      ensures data == if loadFailed then Gathered(server, requests - 1) else Gathered(server, requests)
      ensures filters == old(filters) && sortKey == old(sortKey) && currentPage == 1
      ensures filteredData == Apply(data, filters, sortKey)
    {
      var allData, failed;
      allData, failed, requests := FetchAll(server, bound);
      loadFailed := failed;
      data := allData;
      isLoading := false;
      RefreshFilteredData();
    }

    /** A change of the filter panel: the filter effect reruns and the page
        resets to 1 (App.jsx:169-171). */
    method SetFilters(f: Criteria)
      requires Valid()
      modifies this
      ensures Valid()
      ensures filters == f && currentPage == 1
      ensures data == old(data) && sortKey == old(sortKey) && isLoading == old(isLoading)
      ensures loadFailed == old(loadFailed)
      ensures !isLoading ==> filteredData == Apply(data, f, sortKey)
    {
      filters := f;
      RefreshFilteredData();
      currentPage := 1;
    }

    /** A change of the sort select: same effects as a filter change. */
    method SetSortKey(k: SortKey)
      requires Valid()
      modifies this
      ensures Valid()
      ensures sortKey == k && currentPage == 1
      ensures data == old(data) && filters == old(filters) && isLoading == old(isLoading)
      ensures loadFailed == old(loadFailed)
      ensures !isLoading ==> filteredData == Apply(data, filters, k)
    {
      sortKey := k;
      RefreshFilteredData();
      currentPage := 1;
    }

    /** The species options effect (App.jsx:58-62): recomputed from the
        data whenever it changes. */
    function SpeciesOptionsShown(): seq<string>
      reads this
    {
      SpeciesOptions(data)
    }

    /** The page count the pagination bar receives. */
    function PageCount(): (r: int)
      reads this
      ensures r >= 0
    {
      TotalPages(|filteredData|, PageSize)
    }

    /** The Previous button. */
    method HandlePrevious()
      requires Valid()
      modifies this`currentPage
      ensures Valid()
      ensures currentPage == PreviousPage(old(currentPage))
    {
      currentPage := PreviousPage(currentPage);
    }

    /** The Next button. */
    method HandleNext()
      requires Valid()
      modifies this`currentPage
      ensures Valid()
      ensures currentPage == NextPage(old(currentPage), PageCount())
    {
      currentPage := NextPage(currentPage, PageCount());
    }

    /** The rows handed to the table. */
    function CurrentPageData(): (r: seq<Character>)
      reads this
      ensures |r| <= PageSize
      ensures forall i :: 0 <= i < |r| ==> r[i] in filteredData
    {
      PageRows(filteredData, currentPage)
    }

    /** App.jsx:178-188 and the main view: a failed load hides the table,
        and with it whatever part of the data had been gathered. */
    function Render(): (s: Screen)
      reads this
      ensures s.Spinner? <==> isLoading
      ensures s.ErrorMessage? <==> !isLoading && loadFailed
      ensures s.TableView? ==> s.rows == CurrentPageData() && s.totalPages == PageCount()
      ensures s.TableView? ==> s.noResults == noResults && s.currentPage == currentPage
    {
      if isLoading then Spinner
      else if loadFailed then ErrorMessage
      else TableView(CurrentPageData(), noResults, currentPage, PageCount())
    }
  }
}
