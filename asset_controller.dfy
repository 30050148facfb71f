/**
 * backend/controllers/asset.controller.js: `findAll`, a paged, sorted and
 * searched read of the asset table, and `create`, which inserts an asset and
 * then appends its "created" history row.
 */
module AssetController {
  import opened Results
  import opened Text
  import opened AssetModel

  // ---------------------------------------------------------------------------
  // findAll: search

  /**
   * The `where` condition: no condition for an empty term, otherwise the term
   * must occur in `asset_name` or in `asset_number`.
   */
  predicate Matches(search: string, a: Asset) {
    search == [] || Contains(search, a.name) || Contains(search, a.number)
  }

  /** The rows of `table` the condition selects, in table order. */
  function Matching(table: seq<Asset>, search: string): (r: seq<Asset>)
    ensures |r| <= |table|
    ensures forall x :: multiset(r)[x] == if Matches(search, x) then multiset(table)[x] else 0
    ensures forall x :: x in r <==> x in table && Matches(search, x)
  {
    if table == [] then []
    else
      assert table == [table[0]] + table[1..];
      var rest := Matching(table[1..], search);
      if Matches(search, table[0]) then [table[0]] + rest else rest
  }

  /** With no search term every row is a candidate, in table order. */
  lemma {:induction false} EmptySearchSelectsAll(table: seq<Asset>)
    ensures Matching(table, []) == table
  {
    if table != [] {
      EmptySearchSelectsAll(table[1..]);
    }
  }

  /** A row is selected by a non-empty term iff the term is a substring of its name or number. */
  lemma SearchIsSubstring(search: string, a: Asset)
    requires search != []
    ensures Matches(search, a) <==> IsSubstring(search, a.name) || IsSubstring(search, a.number)
  {
    ContainsIsSubstring(search, a.name);
    ContainsIsSubstring(search, a.number);
  }

  // ---------------------------------------------------------------------------
  // findAll: ordering

  /** The columns `sortBy` may name. */
  datatype Column =
    | Id | AssetName | AssetNumber | Description | PurchaseDate | PurchaseCost
    | StatusColumn | Location | CategoryId | EmployeeId

  datatype Direction = Asc | Desc

  /** A column value as the database compares it; NULL sorts lowest. */
  datatype SortKey = NullKey | IntKey(n: int) | TextKey(s: string)

  function OptionalText(v: Option<string>): SortKey {
    if v.Some? then TextKey(v.value) else NullKey
  }

  function OptionalInt(v: Option<int>): SortKey {
    if v.Some? then IntKey(v.value) else NullKey
  }

  function OptionalNat(v: Option<nat>): SortKey {
    if v.Some? then IntKey(v.value) else NullKey
  }

  function KeyOf(column: Column, a: Asset): SortKey {
    match column
    case Id => IntKey(a.id)
    case AssetName => TextKey(a.name)
    case AssetNumber => TextKey(a.number)
    case Description => OptionalText(a.description)
    case PurchaseDate => OptionalInt(a.purchaseDate)
    case PurchaseCost => OptionalInt(a.purchaseCost)
    case StatusColumn => IntKey(StatusIndex(a.status))
    case Location => OptionalText(a.location)
    case CategoryId => OptionalNat(a.categoryId)
    case EmployeeId => OptionalNat(a.employeeId)
  }

  predicate KeyLe(x: SortKey, y: SortKey) {
    match (x, y)
    case (NullKey, _) => true
    case (_, NullKey) => false
    case (IntKey(m), IntKey(n)) => m <= n
    case (IntKey(_), TextKey(_)) => true
    case (TextKey(_), IntKey(_)) => false
    case (TextKey(s), TextKey(t)) => LexLe(s, t)
  }

  /** `x` may precede `y` under `ORDER BY column direction`. */
  predicate InOrder(column: Column, direction: Direction, x: Asset, y: Asset) {
    if direction == Asc then KeyLe(KeyOf(column, x), KeyOf(column, y))
    else KeyLe(KeyOf(column, y), KeyOf(column, x))
  }

  lemma InOrderTotal(column: Column, direction: Direction, x: Asset, y: Asset)
    ensures InOrder(column, direction, x, y) || InOrder(column, direction, y, x)
  {
    var kx, ky := KeyOf(column, x), KeyOf(column, y);
    if kx.TextKey? && ky.TextKey? {
      LexLeTotal(kx.s, ky.s);
    }
  }

  lemma InOrderTransitive(column: Column, direction: Direction, x: Asset, y: Asset, z: Asset)
    requires InOrder(column, direction, x, y) && InOrder(column, direction, y, z)
    ensures InOrder(column, direction, x, z)
  {
    var kx, ky, kz := KeyOf(column, x), KeyOf(column, y), KeyOf(column, z);
    if kx.TextKey? && ky.TextKey? && kz.TextKey? {
      if direction == Asc {
        LexLeTransitive(kx.s, ky.s, kz.s);
      } else {
        LexLeTransitive(kz.s, ky.s, kx.s);
      }
    }
  }

  /** `le` orders every pair and is transitive. */
  ghost predicate TotalPreorder<T(!new)>(le: (T, T) -> bool) {
    (forall x, y :: le(x, y) || le(y, x))
    && (forall x, y, z :: le(x, y) && le(y, z) ==> le(x, z))
  }

  ghost predicate SortedBy<T>(le: (T, T) -> bool, s: seq<T>) {
    forall i, j :: 0 <= i < j < |s| ==> le(s[i], s[j])
  }

  function Insert<T>(le: (T, T) -> bool, x: T, s: seq<T>): seq<T> {
    if s == [] then [x]
    else if le(x, s[0]) then [x] + s
    else [s[0]] + Insert(le, x, s[1..])
  }

  /** Insertion sort by `le`. */
  function SortBy<T>(le: (T, T) -> bool, s: seq<T>): seq<T> {
    if s == [] then [] else Insert(le, s[0], SortBy(le, s[1..]))
  }

  lemma {:induction false} InsertPermutes<T>(le: (T, T) -> bool, x: T, s: seq<T>)
    ensures multiset(Insert(le, x, s)) == multiset(s) + multiset{x}
  {
    if s != [] && !le(x, s[0]) {
      assert s == [s[0]] + s[1..];
      InsertPermutes(le, x, s[1..]);
    }
  }

  lemma {:induction false} InsertSorted<T(!new)>(le: (T, T) -> bool, x: T, s: seq<T>)
    requires TotalPreorder(le) && SortedBy(le, s)
    ensures SortedBy(le, Insert(le, x, s))
  {
    if s == [] {
    } else if le(x, s[0]) {
      var r := [x] + s;
      forall i, j | 0 <= i < j < |r| ensures le(r[i], r[j]) {
        if i == 0 && j > 1 {
          assert le(x, s[0]) && le(s[0], s[j - 1]);
        } else if i > 0 {
          assert r[i] == s[i - 1] && r[j] == s[j - 1];
        }
      }
    } else {
      var tail := s[1..];
      assert le(s[0], x);
      InsertSorted(le, x, tail);
      InsertPermutes(le, x, tail);
      var t := Insert(le, x, tail);
      InsertAfterHead(le, x, s);
      var r := [s[0]] + t;
      forall i, j | 0 <= i < j < |r| ensures le(r[i], r[j]) {
        if i == 0 {
          assert r[j] == t[j - 1];
        } else {
          assert r[i] == t[i - 1] && r[j] == t[j - 1];
        }
      }
    }
  }

  /** When `x` goes after the head of a sorted `s`, the head precedes every row of the insertion into the tail. */
  lemma InsertAfterHead<T(!new)>(le: (T, T) -> bool, x: T, s: seq<T>)
    requires SortedBy(le, s) && s != [] && le(s[0], x)
    ensures forall j :: 0 <= j < |Insert(le, x, s[1..])| ==> le(s[0], Insert(le, x, s[1..])[j])
  {
    var tail := s[1..];
    var t := Insert(le, x, tail);
    InsertPermutes(le, x, tail);
    forall j | 0 <= j < |t| ensures le(s[0], t[j]) {
      var y := t[j];
      assert y in multiset(t);
      if y != x {
        assert y in multiset(tail);
        var k :| 0 <= k < |tail| && tail[k] == y;
        assert s[k + 1] == y;
      }
    }
  }

  /** Insertion sort returns a permutation of its input that is sorted by `le`. */
  lemma {:induction false} SortBySorted<T(!new)>(le: (T, T) -> bool, s: seq<T>)
    requires TotalPreorder(le)
    ensures multiset(SortBy(le, s)) == multiset(s)
    ensures SortedBy(le, SortBy(le, s))
  {
    if s != [] {
      SortBySorted(le, s[1..]);
      InsertSorted(le, s[0], SortBy(le, s[1..]));
      InsertPermutes(le, s[0], SortBy(le, s[1..]));
      assert s == [s[0]] + s[1..];
    }
  }

  lemma SortedTail<T>(le: (T, T) -> bool, s: seq<T>)
    requires SortedBy(le, s) && s != []
    ensures SortedBy(le, s[1..])
  {
    forall i, j | 0 <= i < j < |s| - 1 ensures le(s[1..][i], s[1..][j]) {
      assert s[1..][i] == s[i + 1] && s[1..][j] == s[j + 1];
    }
  }

  /**
   * Under an order that relates two distinct elements of `a` in at most one
   * direction, there is only one sorted arrangement of `a`.
   */
  lemma {:induction false} SortedArrangementUnique<T(!new)>(le: (T, T) -> bool, a: seq<T>, b: seq<T>)
    requires multiset(a) == multiset(b) && SortedBy(le, a) && SortedBy(le, b)
    requires forall x, y :: x in a && y in a && le(x, y) && le(y, x) ==> x == y
    ensures a == b
    decreases |a|
  {
    assert |a| == |multiset(a)| == |multiset(b)| == |b|;
    if a != [] {
      SortedHeadsEqual(le, a, b);
      assert a == [a[0]] + a[1..] && b == [b[0]] + b[1..];
      var a', b' := a[1..], b[1..];
      SortedTail(le, a);
      SortedTail(le, b);
      assert forall x :: x in a' ==> x in a;
      assert multiset(a') == multiset(a) - multiset{a[0]};
      assert multiset(b') == multiset(b) - multiset{a[0]};
      SortedArrangementUnique(le, a', b');
    }
  }

  /** Two sorted arrangements of the same rows start with the same row when ties are impossible. */
  lemma SortedHeadsEqual<T(!new)>(le: (T, T) -> bool, a: seq<T>, b: seq<T>)
    requires a != [] && b != []
    requires multiset(a) == multiset(b) && SortedBy(le, a) && SortedBy(le, b)
    requires forall x, y :: x in a && y in a && le(x, y) && le(y, x) ==> x == y
    ensures a[0] == b[0]
  {
    assert a[0] in multiset(b) && b[0] in multiset(a);
    var k :| 0 <= k < |b| && b[k] == a[0];
    var j :| 0 <= j < |a| && a[j] == b[0];
    if j > 0 && k > 0 {
      assert le(a[0], a[j]) && le(b[0], b[k]);
    }
  }

  /** The comparison `ORDER BY column direction` applies. */
  function OrderOf(column: Column, direction: Direction): (Asset, Asset) -> bool {
    (x, y) => InOrder(column, direction, x, y)
  }

  lemma OrderIsTotalPreorder(column: Column, direction: Direction)
    ensures TotalPreorder(OrderOf(column, direction))
  {
    forall x, y ensures InOrder(column, direction, x, y) || InOrder(column, direction, y, x) {
      InOrderTotal(column, direction, x, y);
    }
    forall x, y, z | InOrder(column, direction, x, y) && InOrder(column, direction, y, z)
      ensures InOrder(column, direction, x, z)
    {
      InOrderTransitive(column, direction, x, y, z);
    }
  }

  /**
   * The rows in `ORDER BY column direction`. SQL leaves the order of rows with
   * equal keys open; this is one of the admissible orders.
   */
  function SortRows(column: Column, direction: Direction, s: seq<Asset>): (r: seq<Asset>)
    ensures multiset(r) == multiset(s) && |r| == |s|
    ensures forall i, j :: 0 <= i < j < |r| ==> InOrder(column, direction, r[i], r[j])
  {
    OrderIsTotalPreorder(column, direction);
    SortBySorted(OrderOf(column, direction), s);
    var r := SortBy(OrderOf(column, direction), s);
    assert |multiset(r)| == |multiset(s)|;
    r
  }

  // ---------------------------------------------------------------------------
  // findAll: paging and the response

  /** The request's query string, after the defaults are applied. */
  datatype Query = Query(page: nat, size: nat, sortBy: Column, sortOrder: Direction, search: string)

  /** `page = 1, size = 10, sortBy = 'asset_name', sortOrder = 'ASC', search = ''`. */
  const DefaultQuery: Query := Query(1, 10, AssetName, Asc, [])

  function Offset(page: nat, size: nat): nat
    requires page >= 1
  {
    (page - 1) * size
  }

  /** `Math.ceil(count / size)`. */
  function CeilDiv(count: nat, size: nat): (r: nat)
    requires size >= 1
    ensures count == 0 ==> r == 0
    ensures count > 0 ==> (r - 1) * size < count <= r * size
  {
    var r := (count + size - 1) / size;
    assert r * size <= count + size - 1 < (r + 1) * size;
    r
  }

  /** `LIMIT size OFFSET offset` over the ordered rows. */
  function Window<T>(s: seq<T>, offset: nat, size: nat): (r: seq<T>)
    ensures |r| <= size
    ensures forall k :: 0 <= k < |r| ==> offset + k < |s| && r[k] == s[offset + k]
    ensures |r| == if offset >= |s| then 0 else if offset + size <= |s| then size else |s| - offset
  {
    if offset >= |s| then []
    else if offset + size <= |s| then s[offset..offset + size]
    else s[offset..]
  }

  /** An asset joined with the `name` of its Category and of its Employee (outer joins). */
  datatype Row = Row(asset: Asset, categoryName: Option<string>, employeeName: Option<string>)

  function Lookup(names: map<nat, string>, key: Option<nat>): Option<string> {
    if key.Some? && key.value in names then Some(names[key.value]) else None
  }

  function Join(a: Asset, categories: map<nat, string>, employees: map<nat, string>): Row {
    Row(a, Lookup(categories, a.categoryId), Lookup(employees, a.employeeId))
  }

  /** The response body of `findAll`. */
  datatype PageResult = PageResult(totalItems: nat, assets: seq<Row>, currentPage: nat, totalPages: nat)

  /** The selected rows in the requested order, before paging. */
  function Ordered(table: seq<Asset>, q: Query): seq<Asset> {
    SortRows(q.sortBy, q.sortOrder, Matching(table, q.search))
  }

  /** The ordered rows are the selected rows: as many, each one a matching table row. */
  lemma OrderedRowsMatch(table: seq<Asset>, q: Query)
    ensures |Ordered(table, q)| == |Matching(table, q.search)|
    ensures forall i :: 0 <= i < |Ordered(table, q)| ==>
              Ordered(table, q)[i] in table && Matches(q.search, Ordered(table, q)[i])
  {
    var selected, ordered := Matching(table, q.search), Ordered(table, q);
    forall i | 0 <= i < |ordered| ensures ordered[i] in table && Matches(q.search, ordered[i]) {
      assert ordered[i] in multiset(ordered);
      assert ordered[i] in multiset(selected);
    }
  }

  /** No two rows of `table` have the same value in `column`. */
  predicate DistinctKeys(column: Column, table: seq<Asset>) {
    forall i, j :: 0 <= i < j < |table| ==> KeyOf(column, table[i]) != KeyOf(column, table[j])
  }

  /** Rows that may each precede the other have equal keys. */
  lemma InOrderBothWays(column: Column, direction: Direction, x: Asset, y: Asset)
    requires InOrder(column, direction, x, y) && InOrder(column, direction, y, x)
    ensures KeyOf(column, x) == KeyOf(column, y)
  {
    var kx, ky := KeyOf(column, x), KeyOf(column, y);
    if kx.TextKey? && ky.TextKey? {
      LexLeAntisymmetric(kx.s, ky.s);
    }
  }

  /**
   * When the sort column holds distinct values, no tie order is left open:
   * every arrangement of the selected rows that respects `ORDER BY` is the
   * one `Ordered` gives, so every request sees the same order.
   */
  lemma DistinctKeysFixOrder(table: seq<Asset>, q: Query, other: seq<Asset>)
    requires DistinctKeys(q.sortBy, table)
    requires multiset(other) == multiset(Matching(table, q.search))
    requires forall i, j :: 0 <= i < j < |other| ==> InOrder(q.sortBy, q.sortOrder, other[i], other[j])
    ensures other == Ordered(table, q)
  {
    var ordered, le := Ordered(table, q), OrderOf(q.sortBy, q.sortOrder);
    forall x, y | x in ordered && y in ordered && le(x, y) && le(y, x) ensures x == y {
      assert x in multiset(ordered) && y in multiset(ordered);
      var i :| 0 <= i < |table| && table[i] == x;
      var j :| 0 <= j < |table| && table[j] == y;
      InOrderBothWays(q.sortBy, q.sortOrder, x, y);
    }
    SortedArrangementUnique(le, ordered, other);
  }

  /** The asset table keeps `id` and `asset_number` distinct, so sorting by either leaves no ties. */
  lemma UniqueColumnsHaveDistinctKeys(assets: seq<Asset>, nextAssetId: nat)
    requires TableInvariant(assets, nextAssetId)
    ensures DistinctKeys(Id, assets) && DistinctKeys(AssetNumber, assets)
  {
  }

  /**
   * `findAll` over the asset table, with `categories` and `employees` the
   * `name` columns of those tables by key.
   */
  function FindAll(table: seq<Asset>, categories: map<nat, string>, employees: map<nat, string>, q: Query)
    : (r: PageResult)
    requires q.page >= 1 && q.size >= 1
    ensures r.totalItems == |Matching(table, q.search)|
    ensures r.currentPage == q.page
    ensures r.totalPages == CeilDiv(r.totalItems, q.size)
    ensures var window := Window(Ordered(table, q), Offset(q.page, q.size), q.size);
            |r.assets| == |window|
            && forall k :: 0 <= k < |window| ==> r.assets[k] == Join(window[k], categories, employees)
  {
    var window := Window(Ordered(table, q), Offset(q.page, q.size), q.size);
    var rows := seq(|window|, k requires 0 <= k < |window| => Join(window[k], categories, employees));
    PageResult(|Matching(table, q.search)|, rows, q.page, CeilDiv(|Matching(table, q.search)|, q.size))
  }

  /**
   * The rows of a page: at most `size` of them; row `k` is row `offset + k`
   * of the ordered matching rows, so it matches the search and comes from the
   * table; a page that starts inside the result is full or holds the rest.
   */
  lemma FindAllPage(table: seq<Asset>, categories: map<nat, string>, employees: map<nat, string>, q: Query)
    requires q.page >= 1 && q.size >= 1
    ensures var r := FindAll(table, categories, employees, q);
            var offset := Offset(q.page, q.size);
            |r.assets| <= q.size
            && (forall k :: 0 <= k < |r.assets| ==>
                  offset + k < r.totalItems
                  && r.assets[k].asset == Ordered(table, q)[offset + k]
                  && Matches(q.search, r.assets[k].asset) && r.assets[k].asset in table)
            && (offset < r.totalItems ==>
                  |r.assets| == if r.totalItems - offset < q.size then r.totalItems - offset else q.size)
  {
    OrderedRowsMatch(table, q);
  }

  /** The first request with the defaults starts at the first row. */
  lemma DefaultStartsAtFirstRow()
    ensures Offset(DefaultQuery.page, DefaultQuery.size) == 0
  {
  }

  /** The total depends only on the search term, not on the page, size or order. */
  lemma TotalIndependentOfPaging(table: seq<Asset>, categories: map<nat, string>,
                                 employees: map<nat, string>, q1: Query, q2: Query)
    requires q1.page >= 1 && q1.size >= 1 && q2.page >= 1 && q2.size >= 1
    requires q1.search == q2.search
    ensures FindAll(table, categories, employees, q1).totalItems
         == FindAll(table, categories, employees, q2).totalItems
  {
  }

  /**
   * A page holds the rows of the ordered result from its offset on: the row
   * at position `k` of the result, with `k` inside the page's span, is row
   * `k - offset` of the page.
   */
  lemma PagesCoverResult(table: seq<Asset>, categories: map<nat, string>,
                         employees: map<nat, string>, q: Query, k: nat)
    requires q.page >= 1 && q.size >= 1 && k < |Ordered(table, q)|
    requires Offset(q.page, q.size) <= k < Offset(q.page, q.size) + q.size
    ensures k - Offset(q.page, q.size) < |FindAll(table, categories, employees, q).assets|
    ensures FindAll(table, categories, employees, q).assets[k - Offset(q.page, q.size)].asset
         == Ordered(table, q)[k]
  {
    FindAllPage(table, categories, employees, q);
  }

  /** Position `k` lies in the span of page `k / size + 1`, and of no other page. */
  lemma PageOfPosition(page: nat, size: nat, k: nat)
    requires page >= 1 && size >= 1
    ensures page == k / size + 1 <==> Offset(page, size) <= k < Offset(page, size) + size
  {
    var m := k / size;
    assert m * size <= k < m * size + size;
    if page - 1 < m {
      assert (page - 1) * size + size <= m * size;
    } else if page - 1 > m {
      assert (page - 1) * size >= (m + 1) * size;
    }
  }

  // ---------------------------------------------------------------------------
  // create

  const CreatedAction: string := "created"
  const CreatedDescription: string := "Asset was created"

  /** The history row `create` writes for a new asset. */
  function CreatedEntry(id: nat, assetId: nat, performedBy: nat, date: int): HistoryEntry {
    HistoryEntry(id, assetId, CreatedAction, CreatedDescription, date, performedBy)
  }

  predicate IsCreatedEntryOf(e: HistoryEntry, assetId: nat) {
    e.assetId == assetId && e.action == CreatedAction
  }

  /** How many "created" rows `history` holds for `assetId`. */
  function CreatedCount(history: seq<HistoryEntry>, assetId: nat): nat {
    if history == [] then 0
    else CreatedCount(history[..|history| - 1], assetId)
         + (if IsCreatedEntryOf(history[|history| - 1], assetId) then 1 else 0)
  }

  /** Counting over two pieces of history adds up. */
  lemma {:induction false} CreatedCountConcat(h1: seq<HistoryEntry>, h2: seq<HistoryEntry>, assetId: nat)
    ensures CreatedCount(h1 + h2, assetId) == CreatedCount(h1, assetId) + CreatedCount(h2, assetId)
    decreases |h2|
  {
    if h2 != [] {
      var h2' := h2[..|h2| - 1];
      assert (h1 + h2)[..|h1 + h2| - 1] == h1 + h2';
      assert (h1 + h2)[|h1 + h2| - 1] == h2[|h2| - 1];
      CreatedCountConcat(h1, h2', assetId);
    } else {
      assert h1 + h2 == h1;
    }
  }

  /** A history with no row for `assetId` has no "created" row for it. */
  lemma {:induction false} CreatedCountAbsent(history: seq<HistoryEntry>, assetId: nat)
    requires forall k :: 0 <= k < |history| ==> history[k].assetId != assetId
    ensures CreatedCount(history, assetId) == 0
  {
    if history != [] {
      CreatedCountAbsent(history[..|history| - 1], assetId);
    }
  }

  predicate HasAsset(table: seq<Asset>, id: nat) {
    exists i :: 0 <= i < |table| && table[i].id == id
  }

  /** The asset table: valid rows, unique numbers, increasing keys below the next auto-increment value. */
  ghost predicate TableInvariant(assets: seq<Asset>, nextAssetId: nat) {
    1 <= nextAssetId
    && (forall i :: 0 <= i < |assets| ==> ValidAsset(assets[i]) && 1 <= assets[i].id < nextAssetId)
    && UniqueNumbers(assets)
    && (forall i, j :: 0 <= i < j < |assets| ==> assets[i].id < assets[j].id)
  }

  /**
   * The history table: increasing keys below the next auto-increment value,
   * every row pointing at a stored asset, and exactly one "created" row for
   * each stored asset.
   */
  ghost predicate HistoryInvariant(assets: seq<Asset>, history: seq<HistoryEntry>, nextHistoryId: nat) {
    (forall k :: 0 <= k < |history| ==> history[k].id < nextHistoryId && HasAsset(assets, history[k].assetId))
    && (forall i, j :: 0 <= i < j < |history| ==> history[i].id < history[j].id)
    && (forall i :: 0 <= i < |assets| ==> CreatedCount(history, assets[i].id) == 1)
  }

  ghost predicate StoreInvariant(assets: seq<Asset>, history: seq<HistoryEntry>, nextAssetId: nat, nextHistoryId: nat) {
    TableInvariant(assets, nextAssetId) && HistoryInvariant(assets, history, nextHistoryId)
  }

  /** Appending a valid row under the next key, with an unused number, keeps the asset table invariant. */
  lemma AppendKeepsTableInvariant(assets: seq<Asset>, nextAssetId: nat, a: Asset)
    requires TableInvariant(assets, nextAssetId)
    requires ValidAsset(a) && a.id == nextAssetId && !NumberTaken(assets, a.number)
    ensures TableInvariant(assets + [a], nextAssetId + 1)
  {
    AppendKeepsUnique(assets, a);
    var assets' := assets + [a];
    forall i | 0 <= i < |assets'| ensures ValidAsset(assets'[i]) && 1 <= assets'[i].id < nextAssetId + 1 {
      if i < |assets| {
        assert assets'[i] == assets[i];
      }
    }
  }

  /**
   * Appending a new asset, with a key above every stored key, together with
   * its "created" row keeps the history invariant.
   */
  lemma {:induction false} AppendKeepsHistoryInvariant(assets: seq<Asset>, history: seq<HistoryEntry>,
                                                       nextHistoryId: nat, a: Asset, e: HistoryEntry)
    requires HistoryInvariant(assets, history, nextHistoryId)
    requires forall i :: 0 <= i < |assets| ==> assets[i].id < a.id
    requires e.id == nextHistoryId && IsCreatedEntryOf(e, a.id)
    ensures HistoryInvariant(assets + [a], history + [e], nextHistoryId + 1)
  {
    var assets', history' := assets + [a], history + [e];
    assert history'[..|history'| - 1] == history;
    forall k | 0 <= k < |history'| ensures HasAsset(assets', history'[k].assetId) {
      if k < |history| {
        var i :| 0 <= i < |assets| && assets[i].id == history[k].assetId;
        assert assets'[i] == assets[i];
      } else {
        assert assets'[|assets|] == a;
      }
    }
    forall i | 0 <= i < |assets'| ensures CreatedCount(history', assets'[i].id) == 1 {
      if i < |assets| {
        assert assets'[i] == assets[i];
      } else {
        forall k | 0 <= k < |history| ensures history[k].assetId != a.id {
          var j :| 0 <= j < |assets| && assets[j].id == history[k].assetId;
        }
        CreatedCountAbsent(history, a.id);
      }
    }
  }

  /** A successful create keeps the invariant: the new asset gets its one "created" row. */
  lemma CreateKeepsInvariant(assets: seq<Asset>, history: seq<HistoryEntry>,
                             nextAssetId: nat, nextHistoryId: nat,
                             input: AssetInput, performedBy: nat, now: int)
    requires StoreInvariant(assets, history, nextAssetId, nextHistoryId)
    requires Admit(input, assets, nextAssetId).Ok?
    ensures var a := Admit(input, assets, nextAssetId).value;
            StoreInvariant(assets + [a], history + [CreatedEntry(nextHistoryId, a.id, performedBy, now)],
                           nextAssetId + 1, nextHistoryId + 1)
  {
    var a := Admit(input, assets, nextAssetId).value;
    AppendKeepsTableInvariant(assets, nextAssetId, a);
    AppendKeepsHistoryInvariant(assets, history, nextHistoryId, a, CreatedEntry(nextHistoryId, a.id, performedBy, now));
  }

  /**
   * The asset and history tables. `create` inserts into the first and then
   * appends to the second; keys come from auto-increment counters.
   */
  class AssetStore {
    var assets: seq<Asset>
    var history: seq<HistoryEntry>
    var nextAssetId: nat
    var nextHistoryId: nat

    ghost predicate Valid()
      reads this
    {
      StoreInvariant(assets, history, nextAssetId, nextHistoryId)
    }

    /** Empty tables; auto-increment keys start at 1. */
    constructor ()
      ensures Valid()
      ensures assets == [] && history == [] && nextAssetId == 1 && nextHistoryId == 1
    {
      assets, history := [], [];
      nextAssetId, nextHistoryId := 1, 1;
    }

    /**
     * `create`: insert the asset from `input`, then append its "created"
     * history row stamped with the caller `performedBy` and the time `now`.
     * When the insert is refused nothing is written; a refusal for a
     * duplicate number still spends the auto-increment key it drew.
     */
    method Create(input: AssetInput, performedBy: nat, now: int) returns (r: Result<Asset, CreateError>)
      requires Valid()
      modifies this
      ensures Valid()
      ensures r == Admit(input, old(assets), old(nextAssetId))
      ensures r.Ok? ==>
                assets == old(assets) + [r.value] && nextAssetId == old(nextAssetId) + 1
                && history == old(history) + [CreatedEntry(old(nextHistoryId), r.value.id, performedBy, now)]
                && nextHistoryId == old(nextHistoryId) + 1
      ensures r.Err? ==>
                assets == old(assets) && history == old(history) && nextHistoryId == old(nextHistoryId)
                && nextAssetId == old(nextAssetId) + (if r == Err(DuplicateNumber) then 1 else 0)
    {
      r := Admit(input, assets, nextAssetId);
      if r == Err(DuplicateNumber) {
        nextAssetId := nextAssetId + 1;
        return;
      } else if r.Err? {
        return;
      }
      CreateKeepsInvariant(assets, history, nextAssetId, nextHistoryId, input, performedBy, now);
      var asset := r.value;
      assets := assets + [asset];
      nextAssetId := nextAssetId + 1;
      history := history + [CreatedEntry(nextHistoryId, asset.id, performedBy, now)];
      nextHistoryId := nextHistoryId + 1;
    }
  }

  function LaptopInput(): AssetInput {
    AssetInput(Some("Laptop A"), Some("AST-001"), None, None, None, Some("available"), None, None, None)
  }

  /**
   * Two creates with the asset number "AST-001" on empty tables: the first
   * succeeds and writes one history row, the second is refused, and the
   * tables end up holding that one asset and its one history row. The
   * refused insert spent key 2, so the next asset would get key 3.
   */
  method DuplicateNumberScenario(performedBy: nat, now: int)
    returns (first: Result<Asset, CreateError>, second: Result<Asset, CreateError>,
             table: seq<Asset>, log: seq<HistoryEntry>, nextId: nat)
    ensures first.Ok? && first.value.number == "AST-001" && first.value.status == Available
    ensures second == Err(DuplicateNumber)
    ensures table == [first.value]
    ensures log == [CreatedEntry(1, first.value.id, performedBy, now)]
    ensures first.value.id == 1 && nextId == 3
  {
    var input := LaptopInput();
    assert WellFormed(input) && ParseStatus("available") == Some(Available);
    var store := new AssetStore();
    first := store.Create(input, performedBy, now);
    assert first.Ok? by {
      assert !NumberTaken([], "AST-001");
    }
    assert store.assets == [first.value];
    assert NumberTaken(store.assets, "AST-001") by {
      assert store.assets[0].number == "AST-001";
    }
    second := store.Create(input, performedBy, now);
    table, log, nextId := store.assets, store.history, store.nextAssetId;
  }

  /** Searching a one-row table for part of the row's number returns that row on the first page. */
  lemma SearchFindsOnlyRow(a: Asset, q: Query)
    requires q.page == 1 && q.size >= 1 && Contains(q.search, a.number)
    ensures var r := FindAll([a], map[], map[], q);
            r.totalItems == 1 && |r.assets| == 1 && r.assets[0].asset == a
  {
    assert Matching([a], q.search) == [a] by {
      assert [a][1..] == [];
    }
    assert Ordered([a], q) == [a];
  }
}
