/**
 The sortable provider comparison table component: its rows, the
 click-to-sort state machine of its column headers, the arrow indicators,
 and the order in which it shows the rows.
 */
module ComparisonTable {
  import opened Options
  import opened Sorting

  datatype Column = Name | Price | Searches | ResponseTime | Accuracy

  datatype Direction = Asc | Desc

  /**
   One provider. The display strings are kept as written; the sort values
   are scaled to integers (response time in tenths of a second, accuracy in
   hundredths of a percent), which keeps every comparison's sign.
   */
  datatype ApiRow = ApiRow(
    id: nat,
    name: string,
    price: string,
    priceValue: int,
    searches: string,
    searchesValue: int,
    responseTime: string,
    responseTimeTenths: int,
    accuracy: string,
    accuracyHundredths: int,
    bestFor: string,
    link: string)

  /** Stand-in for "Custom" pricing and "Unlimited" searches, so that they sort last. */
  const Custom: int := 999999

  const SerpApi: ApiRow := ApiRow(1, "SerpApi", "$50", 50, "5,000", 5000, "2.1s", 21, "99.9%", 9990, "Production apps", "/compare/serpapi")
  const ScrapingBee: ApiRow := ApiRow(2, "ScrapingBee", "$29", 29, "1,000", 1000, "1.8s", 18, "99.5%", 9950, "Small projects", "/compare/scrapingbee")
  const BrightData: ApiRow := ApiRow(3, "Bright Data", "Custom", Custom, "Unlimited", Custom, "0.8s", 8, "99.99%", 9999, "Enterprise", "/compare/bright-data")
  const Oxylabs: ApiRow := ApiRow(4, "Oxylabs", "$99", 99, "10,000", 10000, "1.2s", 12, "99.8%", 9980, "High volume", "/compare/oxylabs")
  const Zenrows: ApiRow := ApiRow(5, "Zenrows", "$69", 69, "5,000", 5000, "1.5s", 15, "99.7%", 9970, "Scraping", "/compare/zenrows")

  /** The table's rows in their written order. */
  const ApiData: seq<ApiRow> := [SerpApi, ScrapingBee, BrightData, Oxylabs, Zenrows]

  // ---------------------------------------------------------------------------
  // Header clicks
  // ---------------------------------------------------------------------------

  /** The two pieces of component state: the sorted column and the direction. */
  datatype SortState = SortState(column: Option<Column>, direction: Option<Direction>)

  const Unsorted: SortState := SortState(None, None)

  /** Column and direction are set together and cleared together. */
  predicate Consistent(st: SortState) {
    st.column.Some? <==> st.direction.Some?
  }

  /**
   `handleSort`: a click on the sorted column turns ascending into
   descending and descending into unsorted; a click on any other column
   sorts by it ascending.
   */
  function HandleSort(st: SortState, column: Column): (r: SortState)
    ensures st.column != Some(column) ==> r == SortState(Some(column), Some(Asc))
    ensures st == SortState(Some(column), Some(Asc)) ==> r == SortState(Some(column), Some(Desc))
    ensures st == SortState(Some(column), Some(Desc)) ==> r == Unsorted
    ensures Consistent(st) ==> Consistent(r)
  {
    if st.column == Some(column) then
      if st.direction == Some(Asc) then st.(direction := Some(Desc))
      else if st.direction == Some(Desc) then SortState(None, None)
      else st
    else
      SortState(Some(column), Some(Asc))
  }

  /** Clicking one header three times from any state not sorted by it cycles back to unsorted. */
  lemma ThreeClicksCycle(st: SortState, column: Column)
    requires st.column != Some(column)
    ensures HandleSort(st, column) == SortState(Some(column), Some(Asc))
    ensures HandleSort(HandleSort(st, column), column) == SortState(Some(column), Some(Desc))
    ensures HandleSort(HandleSort(HandleSort(st, column), column), column) == Unsorted
  {
  }

  /** The states reachable from the initial one by clicks. */
  function AfterClicks(clicks: seq<Column>): (st: SortState)
    ensures Consistent(st)
  {
    if clicks == [] then Unsorted
    else HandleSort(AfterClicks(clicks[..|clicks| - 1]), clicks[|clicks| - 1])
  }

  /** The arrows of one header: whether the up and the down arrow are highlighted. */
  function Indicator(column: Column, st: SortState): (arrows: (bool, bool))
    ensures arrows.0 <==> st.column == Some(column) && st.direction == Some(Asc)
    ensures arrows.1 <==> st.column == Some(column) && st.direction == Some(Desc)
  {
    var active := st.column == Some(column);
    (active && st.direction == Some(Asc), active && st.direction == Some(Desc))
  }

  /** At most one arrow in the whole header row is lit, and only on the sorted column. */
  lemma AtMostOneArrow(st: SortState, a: Column, b: Column)
    requires Indicator(a, st).0 || Indicator(a, st).1
    requires Indicator(b, st).0 || Indicator(b, st).1
    ensures a == b && st.column == Some(a)
    ensures !(Indicator(a, st).0 && Indicator(a, st).1)
  {
  }

  // ---------------------------------------------------------------------------
  // The displayed order
  // ---------------------------------------------------------------------------

  /** The numeric sort value of a column other than the name. */
  function Value(row: ApiRow, column: Column): int
    requires column != Name
  {
    match column
    case Price => row.priceValue
    case Searches => row.searchesValue
    case ResponseTime => row.responseTimeTenths
    case Accuracy => row.accuracyHundredths
  }

  /**
   The key the comparator orders by. `localeCompare` on names is modelled by
   a collation key `collate`; a descending comparator (`b - a`) orders by the
   negated key.
   */
  function SortKey(column: Column, direction: Direction, collate: string -> int): (key: ApiRow -> int)
    ensures column == Name && direction == Asc ==> forall row :: key(row) == collate(row.name)
    ensures column == Name && direction == Desc ==> forall row :: key(row) == -collate(row.name)
    ensures column != Name && direction == Asc ==> forall row :: key(row) == Value(row, column)
    ensures column != Name && direction == Desc ==> forall row :: key(row) == -Value(row, column)
  {
    var base := (row: ApiRow) => if column == Name then collate(row.name) else Value(row, column);
    if direction == Asc then base else (row: ApiRow) => -base(row)
  }

  /**
   `getSortedData`: the rows as written while unsorted; otherwise a stable
   sort under the chosen column and direction.
   */
  function GetSortedData(data: seq<ApiRow>, st: SortState, collate: string -> int): (rows: seq<ApiRow>)
    ensures multiset(rows) == multiset(data)
    ensures st.column.None? || st.direction.None? ==> rows == data
    ensures st.column.Some? && st.direction.Some? ==>
      SortedByKey(rows, SortKey(st.column.value, st.direction.value, collate))
  {
    if st.column.None? || st.direction.None? then data
    else SortByKey(data, SortKey(st.column.value, st.direction.value, collate))
  }

  /** For a numeric column the rows' values rise when ascending and fall when descending. */
  lemma NumericOrder(data: seq<ApiRow>, column: Column, direction: Direction, collate: string -> int, i: int, j: int)
    requires column != Name
    requires 0 <= i < j < |data|
    ensures var rows := GetSortedData(data, SortState(Some(column), Some(direction)), collate);
      direction == Asc ==> Value(rows[i], column) <= Value(rows[j], column)
    ensures var rows := GetSortedData(data, SortState(Some(column), Some(direction)), collate);
      direction == Desc ==> Value(rows[i], column) >= Value(rows[j], column)
  {
    var key := SortKey(column, direction, collate);
    var rows := GetSortedData(data, SortState(Some(column), Some(direction)), collate);
    assert key(rows[i]) <= key(rows[j]);
  }

  /** In rows where one price beats all others, that row sorts last ascending and first descending. */
  lemma DearestSortsLast(rows: seq<ApiRow>, collate: string -> int, m: int)
    requires 0 <= m < |rows|
    requires forall k :: 0 <= k < |rows| && k != m ==> rows[k].priceValue < rows[m].priceValue
    ensures GetSortedData(rows, SortState(Some(Price), Some(Asc)), collate)[|rows| - 1] == rows[m]
    ensures GetSortedData(rows, SortState(Some(Price), Some(Desc)), collate)[0] == rows[m]
  {
    var asc := SortKey(Price, Asc, collate);
    var desc := SortKey(Price, Desc, collate);
    assert forall k :: 0 <= k < |rows| ==> asc(rows[k]) == rows[k].priceValue && desc(rows[k]) == -rows[k].priceValue;
    MaxComesLast(rows, asc, m);
    MinComesFirst(rows, desc, m);
  }

  /** Sorting by price, "Custom" (Bright Data) comes last ascending and first descending. */
  lemma CustomPriceSortsLast(collate: string -> int)
    ensures GetSortedData(ApiData, SortState(Some(Price), Some(Asc)), collate)[4] == BrightData
    ensures GetSortedData(ApiData, SortState(Some(Price), Some(Desc)), collate)[0] == BrightData
  {
    var prices := seq(5, k requires 0 <= k < 5 => ApiData[k].priceValue);
    assert prices == [50, 29, Custom, 99, 69];
    DearestSortsLast(ApiData, collate, 2);
  }

  /** Of five rows, only the first and the last have key `v`. */
  lemma OnlyEndsHaveKey(rows: seq<ApiRow>, key: ApiRow -> int, v: int)
    requires |rows| == 5
    requires key(rows[0]) == v && key(rows[4]) == v
    requires key(rows[1]) != v && key(rows[2]) != v && key(rows[3]) != v
    ensures WithKey(rows, key, v) == [rows[0], rows[4]]
  {
    var t4 := rows[4..];
    var t3 := rows[3..];
    var t2 := rows[2..];
    var t1 := rows[1..];
    assert t4 == [rows[4]] && t4[1..] == [] && t4[0] == rows[4];
    assert WithKey(t4, key, v) == [rows[4]];
    assert t3[1..] == t4 && t3[0] == rows[3];
    assert WithKey(t3, key, v) == [rows[4]];
    assert t2[1..] == t3 && t2[0] == rows[2];
    assert WithKey(t2, key, v) == [rows[4]];
    assert t1[1..] == t2 && t1[0] == rows[1];
    assert WithKey(t1, key, v) == [rows[4]];
  }

  /** In five rows where only the first and the last have `v` searches, a stable sort keeps those two in order. */
  lemma TiedSearchesInOrder(rows: seq<ApiRow>, collate: string -> int, v: int)
    requires |rows| == 5
    requires rows[0].searchesValue == v && rows[4].searchesValue == v
    requires rows[1].searchesValue != v && rows[2].searchesValue != v && rows[3].searchesValue != v
    ensures var key := SortKey(Searches, Asc, collate);
      WithKey(GetSortedData(rows, SortState(Some(Searches), Some(Asc)), collate), key, v) == [rows[0], rows[4]]
  {
    var key := SortKey(Searches, Asc, collate);
    SortStable(rows, key, v);
    assert key(rows[0]) == v && key(rows[4]) == v;
    assert key(rows[1]) != v && key(rows[2]) != v && key(rows[3]) != v;
    OnlyEndsHaveKey(rows, key, v);
  }

  /**
   Sorting by searches ascending keeps the two 5,000-search providers in
   table order: SerpApi before Zenrows.
   */
  lemma EqualSearchesKeepTableOrder(collate: string -> int)
    ensures var key := SortKey(Searches, Asc, collate);
      WithKey(GetSortedData(ApiData, SortState(Some(Searches), Some(Asc)), collate), key, 5000) == [SerpApi, Zenrows]
  {
    var searches := seq(5, k requires 0 <= k < 5 => ApiData[k].searchesValue);
    assert searches == [5000, 1000, Custom, 10000, 5000];
    TiedSearchesInOrder(ApiData, collate, 5000);
  }
}
