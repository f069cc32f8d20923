/** The user-management endpoints: the paged list of users and the search,
    both behind the token check. */
module UserRouter {
  import opened Wrappers
  import opened Text
  import opened Paging
  import opened Ordering
  import opened AuthModels
  import opened Oauth

  /** One user as both endpoints return it. */
  datatype UserItem = UserItem(
    id: string,
    name: string,
    email: Option<string>,
    enName: Option<string>,
    avatarUrl: Option<string>,
    lastLogin: Option<int>,
    status: string,
    loginCount: int,
    createdAt: int,
    tenantKey: string)

  function StatusOf(isActive: bool): (s: string)
    ensures s == "active" <==> isActive
    ensures s == "inactive" <==> !isActive
  {
    if isActive then "active" else "inactive"
  }

  /** The response entry of one row. */
  function ItemOf(u: User): (r: UserItem)
    reads u
    ensures r.id == u.id && r.name == u.name && r.email == u.email && r.enName == u.enName
    ensures r.status == "active" <==> u.isActive
    ensures r.createdAt == u.createdAt && r.loginCount == u.loginCount && r.lastLogin == u.lastLoginAt
  {
    UserItem(u.id, u.name, u.email, u.enName, u.avatarUrl, u.lastLoginAt, StatusOf(u.isActive),
             u.loginCount, u.createdAt, u.tenantKey)
  }

  /** The entries of all rows, in table order. */
  function ItemsOf(rows: seq<User>): (r: seq<UserItem>)
    reads set u | u in rows
    ensures |r| == |rows| && forall i :: 0 <= i < |rows| ==> r[i] == ItemOf(rows[i])
  {
    if rows == [] then [] else [ItemOf(rows[0])] + ItemsOf(rows[1..])
  }

  function CreatedAt(it: UserItem): int {
    it.createdAt
  }

  /** Page `page` of `size` entries: `offset((page - 1) * size).limit(size)`. */
  function Page(s: seq<UserItem>, page: int, size: int): seq<UserItem> {
    PySlice(s, PageStart(page, size), PageStart(page, size) + size)
  }

  /** A page holds at most `size` entries, the run of the list from its first
      row on, and is empty once it starts past the end. */
  lemma PageContents(s: seq<UserItem>, page: int, size: int)
    requires page >= 1 && size >= 1
    ensures |Page(s, page, size)| <= size
    ensures forall m :: 0 <= m < |Page(s, page, size)| ==>
      PageStart(page, size) + m < |s| && Page(s, page, size)[m] == s[PageStart(page, size) + m]
    ensures PageStart(page, size) >= |s| <==> Page(s, page, size) == []
  {
    PySliceNonNegative(s, PageStart(page, size), PageStart(page, size) + size);
  }

  /** Every entry of the list is on exactly one page: entry k is entry
      `k % size` of page `k / size + 1`, and a page showing it at some place
      is that page. */
  lemma EveryEntryOnOnePage(s: seq<UserItem>, size: int, k: nat)
    requires size >= 1 && k < |s|
    ensures k % size < |Page(s, k / size + 1, size)| && Page(s, k / size + 1, size)[k % size] == s[k]
    ensures forall page :: page >= 1 && PageStart(page, size) <= k < PageStart(page, size) + size ==> page == k / size + 1
  {
    EntryOnItsPage(s, size, k);
    forall page | page >= 1 && PageStart(page, size) <= k < PageStart(page, size) + size
      ensures page == k / size + 1
    {
      PageOfRow(k, size, page);
    }
  }

  lemma EntryOnItsPage(s: seq<UserItem>, size: int, k: nat)
    requires size >= 1 && k < |s|
    ensures k % size < |Page(s, k / size + 1, size)| && Page(s, k / size + 1, size)[k % size] == s[k]
  {
    PageOffset(k, size);
    SliceAt(s, PageStart(k / size + 1, size), size, k % size);
  }

  /** Why an endpoint does not answer: the token check refused, or a query
      parameter is out of its declared range. */
  datatype RouteError = NotAuthenticated(denied: Denied) | InvalidQuery(parameter: string)

  datatype UserList = UserList(items: seq<UserItem>, total: int, page: int, pageSize: int)

  /** get_users: page >= 1 and 1 <= page_size <= 100, then the requested page
      of all users newest first, with the number of all users. The page is
      the run of the newest-first list at offset (page - 1) * page_size, so
      `PageContents` and `EveryEntryOnOnePage` say which users it holds. */
  function GetUsers(table: UserTable, token: Option<string>, utcNow: int, page: int, pageSize: int)
    : (r: Result<UserList, RouteError>)
    reads table, set u | u in table.rows
    ensures CurrentUser(table, token, utcNow).Err? ==> r == Err(NotAuthenticated(CurrentUser(table, token, utcNow).error))
    ensures r.Ok? <==> CurrentUser(table, token, utcNow).Ok? && page >= 1 && 1 <= pageSize <= 100
    ensures r.Ok? ==>
      r.value.total == |table.rows| && r.value.page == page && r.value.pageSize == pageSize
      && |r.value.items| <= pageSize && NewestFirst(r.value.items, CreatedAt)
      && (forall it :: it in r.value.items ==> it in ItemsOf(table.rows))
      && (r.value.items == [] <==> PageStart(page, pageSize) >= |table.rows|)
    ensures r.Ok? ==> r.value.items == Page(SortNewestFirst(ItemsOf(table.rows), CreatedAt), page, pageSize)
  {
    var auth := CurrentUser(table, token, utcNow);
    if auth.Err? then Err(NotAuthenticated(auth.error))
    else if page < 1 then Err(InvalidQuery("page"))
    else if pageSize < 1 || pageSize > 100 then Err(InvalidQuery("page_size"))
    else
      var all := ItemsOf(table.rows);
      ListedPage(all, page, pageSize);
      Ok(UserList(Page(SortNewestFirst(all, CreatedAt), page, pageSize), |table.rows|, page, pageSize))
  }

  /** A page of the entries ordered newest first is itself newest first, holds
      only entries of the list, and is empty exactly from the page past the
      last entry on. */
  lemma ListedPage(all: seq<UserItem>, page: int, size: int)
    requires page >= 1 && size >= 1
    ensures var items := Page(SortNewestFirst(all, CreatedAt), page, size);
      |items| <= size && NewestFirst(items, CreatedAt)
      && (forall it :: it in items ==> it in all)
      && (items == [] <==> PageStart(page, size) >= |all|)
  {
    var sorted := SortNewestFirst(all, CreatedAt);
    var items := Page(sorted, page, size);
    PageContents(sorted, page, size);
    assert |sorted| == |all| by {
      assert |multiset(sorted)| == |multiset(all)|;
    }
    forall it | it in items
      ensures it in all
    {
      assert it in sorted;
      assert it in multiset(sorted);
    }
  }

  /** `ILIKE '%q%'` on the name, the email or the English name. */
  predicate MatchesQuery(it: UserItem, q: string) {
    ContainsIgnoreCase(it.name, q)
    || (it.email.Some? && ContainsIgnoreCase(it.email.value, q))
    || (it.enName.Some? && ContainsIgnoreCase(it.enName.value, q))
  }

  /** The entries a query selects, in order. */
  function Filter(items: seq<UserItem>, q: string): (r: seq<UserItem>)
    ensures forall it :: it in r <==> it in items && MatchesQuery(it, q)
    ensures multiset(r) <= multiset(items)
  {
    if items == [] then []
    else
      var rest := Filter(items[1..], q);
      assert items == [items[0]] + items[1..];
      if MatchesQuery(items[0], q) then [items[0]] + rest else rest
  }

  /** Every name contains the empty query, so the filter drops nobody. */
  lemma {:induction false} EmptyQueryKeepsAll(items: seq<UserItem>)
    ensures Filter(items, []) == items
  {
    if items != [] {
      ContainsEmpty(Lower(items[0].name));
      EmptyQueryKeepsAll(items[1..]);
    }
  }

  datatype UserSearch = UserSearch(items: seq<UserItem>, total: int)

  /** search_users: every user when the query is empty, the users the query
      selects otherwise, newest first, with their number. */
  function SearchUsers(table: UserTable, token: Option<string>, utcNow: int, q: string)
    : (r: Result<UserSearch, RouteError>)
    reads table, set u | u in table.rows
    ensures CurrentUser(table, token, utcNow).Err? ==> r == Err(NotAuthenticated(CurrentUser(table, token, utcNow).error))
    ensures r.Ok? <==> CurrentUser(table, token, utcNow).Ok?
    ensures r.Ok? ==>
      r.value.total == |r.value.items| && NewestFirst(r.value.items, CreatedAt)
      && multiset(r.value.items) == multiset(Filter(ItemsOf(table.rows), q))
    ensures r.Ok? && q == [] ==> multiset(r.value.items) == multiset(ItemsOf(table.rows))
  {
    var auth := CurrentUser(table, token, utcNow);
    if auth.Err? then Err(NotAuthenticated(auth.error))
    else
      var all := ItemsOf(table.rows);
      EmptyQueryKeepsAll(all);
      var selected := if q == [] then all else Filter(all, q);
      var sorted := SortNewestFirst(selected, CreatedAt);
      Ok(UserSearch(sorted, |sorted|))
  }

  /** Each entry the search returns matches the query and belongs to a user,
      and each user the query matches is returned. */
  lemma SearchMeaning(table: UserTable, token: Option<string>, utcNow: int, q: string, it: UserItem)
    requires SearchUsers(table, token, utcNow, q).Ok?
    ensures it in SearchUsers(table, token, utcNow, q).value.items <==> it in ItemsOf(table.rows) && MatchesQuery(it, q)
  {
    var items := SearchUsers(table, token, utcNow, q).value.items;
    assert it in items <==> it in multiset(items);
    assert it in Filter(ItemsOf(table.rows), q) <==> it in multiset(Filter(ItemsOf(table.rows), q));
  }
}
