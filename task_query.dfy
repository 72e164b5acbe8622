/**
 * The listing operation of the task store (`findAll`): page and limit checks,
 * the conditions each supplied filter adds (combined by AND), ordering by
 * creation time with the newest first, one page of the result and the page
 * count. It only reads the table, so it is a function of the table's rows.
 */
module TaskQuery {
  import opened Wrappers
  import opened TaskEntity
  import opened TaskErrors
  import opened SqlSemantics

  /** The optional filters of a listing request. */
  datatype Filters = Filters(
    status: Option<TaskStatus>,
    priority: Option<TaskPriority>,
    isActive: Option<bool>,
    startDate: Option<string>,
    endDate: Option<string>,
    search: Option<string>)

  const NoFilters := Filters(None, None, None, None, None, None)

  /** A text filter counts as supplied when it is present and not empty (JavaScript truthiness). */
  predicate Given(o: Option<string>) {
    o.Some? && o.value != ""
  }

  /** One `andWhere` condition of the query. */
  datatype Condition =
    | StatusIs(status: TaskStatus)
    | PriorityIs(priority: TaskPriority)
    | ActiveIs(active: bool)
    | DueBetween(lo: string, hi: string)
    | DueFrom(lo: string)
    | DueUntil(hi: string)
    | NameILike(pattern: string)

  predicate Holds(c: Condition, t: Task) {
    match c
    case StatusIs(s) => t.status == s
    case PriorityIs(p) => t.priority == p
    case ActiveIs(b) => t.isActive == b
    case DueBetween(lo, hi) => LexLe(lo, t.dueDate) && LexLe(t.dueDate, hi)
    case DueFrom(lo) => LexLe(lo, t.dueDate)
    case DueUntil(hi) => LexLe(t.dueDate, hi)
    case NameILike(p) => ILike(t.name, p)
  }

  /** The conditions the query builder accumulates for the filters, in order. */
  function Conditions(filters: Option<Filters>): (r: seq<Condition>)
    ensures filters.None? || filters == Some(NoFilters) ==> r == []
    ensures |r| <= 5
  {
    if filters.None? then [] else
    var f := filters.value;
    StatusConds(f) + PriorityConds(f) + ActiveConds(f) + DueConds(f) + SearchConds(f)
  }

  function StatusConds(f: Filters): seq<Condition> {
    if f.status.Some? then [StatusIs(f.status.value)] else []
  }

  function PriorityConds(f: Filters): seq<Condition> {
    if f.priority.Some? then [PriorityIs(f.priority.value)] else []
  }

  function ActiveConds(f: Filters): seq<Condition> {
    if f.isActive.Some? then [ActiveIs(f.isActive.value)] else []
  }

  function DueConds(f: Filters): seq<Condition> {
    if Given(f.startDate) && Given(f.endDate) then [DueBetween(f.startDate.value, f.endDate.value)]
    else if Given(f.startDate) then [DueFrom(f.startDate.value)]
    else if Given(f.endDate) then [DueUntil(f.endDate.value)]
    else []
  }

  function SearchConds(f: Filters): seq<Condition> {
    if Given(f.search) then [NameILike("%" + f.search.value + "%")] else []
  }

  /** A row satisfies every condition of the query. */
  predicate Where(conds: seq<Condition>, t: Task) {
    forall i :: 0 <= i < |conds| ==> Holds(conds[i], t)
  }

  /**
   * Which rows a listing keeps, stated filter by filter: each supplied filter
   * must hold and an omitted one imposes nothing; the two date bounds are
   * inclusive and each applies on its own.
   */
  predicate Selected(t: Task, filters: Option<Filters>)
    ensures filters.None? || filters == Some(NoFilters) ==> Selected(t, filters)
  {
    filters.None? ||
    var f := filters.value;
    && (f.status.Some? ==> t.status == f.status.value)
    && (f.priority.Some? ==> t.priority == f.priority.value)
    && (f.isActive.Some? ==> t.isActive == f.isActive.value)
    && (Given(f.startDate) ==> LexLe(f.startDate.value, t.dueDate))
    && (Given(f.endDate) ==> LexLe(t.dueDate, f.endDate.value))
    && (Given(f.search) ==> ILike(t.name, "%" + f.search.value + "%"))
  }

  lemma WhereAppend(a: seq<Condition>, b: seq<Condition>, t: Task)
    ensures Where(a + b, t) <==> Where(a, t) && Where(b, t)
  {
    if Where(a + b, t) {
      forall i | 0 <= i < |a| ensures Holds(a[i], t) { assert (a + b)[i] == a[i]; }
      forall i | 0 <= i < |b| ensures Holds(b[i], t) { assert (a + b)[|a| + i] == b[i]; }
    }
  }

  lemma WhereOne(c: Condition, t: Task)
    ensures Where([c], t) <==> Holds(c, t)
  {
    assert [c][0] == c;
  }

  /** Each filter's share of the conditions means that filter's clause of `Selected`. */
  lemma CondsMean(f: Filters, t: Task)
    ensures Where(StatusConds(f), t) <==> (f.status.Some? ==> t.status == f.status.value)
    ensures Where(PriorityConds(f), t) <==> (f.priority.Some? ==> t.priority == f.priority.value)
    ensures Where(ActiveConds(f), t) <==> (f.isActive.Some? ==> t.isActive == f.isActive.value)
    ensures Where(DueConds(f), t) <==>
      (Given(f.startDate) ==> LexLe(f.startDate.value, t.dueDate)) && (Given(f.endDate) ==> LexLe(t.dueDate, f.endDate.value))
    ensures Where(SearchConds(f), t) <==> (Given(f.search) ==> ILike(t.name, "%" + f.search.value + "%"))
  {
    if StatusConds(f) != [] { WhereOne(StatusConds(f)[0], t); }
    if PriorityConds(f) != [] { WhereOne(PriorityConds(f)[0], t); }
    if ActiveConds(f) != [] { WhereOne(ActiveConds(f)[0], t); }
    if DueConds(f) != [] { WhereOne(DueConds(f)[0], t); }
    if SearchConds(f) != [] { WhereOne(SearchConds(f)[0], t); }
  }

  /** The accumulated conditions select exactly the rows `Selected` describes. */
  lemma ConditionsMeanSelected(t: Task, filters: Option<Filters>)
    ensures Where(Conditions(filters), t) <==> Selected(t, filters)
  {
    if filters.Some? {
      var f := filters.value;
      var a, b, c, d, e := StatusConds(f), PriorityConds(f), ActiveConds(f), DueConds(f), SearchConds(f);
      WhereAppend(a + b + c + d, e, t);
      WhereAppend(a + b + c, d, t);
      WhereAppend(a + b, c, t);
      WhereAppend(a, b, t);
      CondsMean(f, t);
    }
  }

  /** With both date bounds given in the wrong order, no row is selected (BETWEEN is not symmetric). */
  lemma ReversedDateRangeSelectsNothing(t: Task, f: Filters)
    requires Given(f.startDate) && Given(f.endDate) && !LexLe(f.startDate.value, f.endDate.value)
    ensures !Selected(t, Some(f))
  {
    if Selected(t, Some(f)) {
      LexLeTransitive(f.startDate.value, t.dueDate, f.endDate.value);
    }
  }

  /** Without an `isActive` filter the active flag plays no part: inactive rows are listed too. */
  lemma ActiveFlagIgnoredUnlessGiven(t: Task, filters: Option<Filters>)
    requires filters.None? || filters.value.isActive.None?
    ensures Selected(t, filters) <==> Selected(t.(isActive := !t.isActive), filters)
  {
  }

  /** The rows of `s` that satisfy `p`, in their original order. */
  function Keep(s: seq<Task>, p: Task -> bool): (r: seq<Task>)
    ensures |r| <= |s|
    ensures forall x :: x in r <==> x in s && p(x)
    ensures forall x :: multiset(r)[x] == if p(x) then multiset(s)[x] else 0
  {
    if s == [] then [] else
      assert s == [s[0]] + s[1..];
      if p(s[0]) then [s[0]] + Keep(s[1..], p) else Keep(s[1..], p)
  }

  /** Keeping drops a row exactly when some row fails the test; when none fails it keeps everything. */
  lemma {:induction false} KeepAll(s: seq<Task>, p: Task -> bool)
    ensures |Keep(s, p)| == |s| <==> forall x :: x in s ==> p(x)
    ensures (forall x :: x in s ==> p(x)) ==> Keep(s, p) == s
  {
    if s != [] {
      KeepAll(s[1..], p);
      if p(s[0]) {
        KeepAllPass(s, p);
      } else {
        KeepAllFail(s, p);
      }
    }
  }

  /** The step of `KeepAll` when the first row passes. */
  lemma KeepAllPass(s: seq<Task>, p: Task -> bool)
    requires s != [] && p(s[0])
    requires |Keep(s[1..], p)| == |s[1..]| <==> forall x :: x in s[1..] ==> p(x)
    requires (forall x :: x in s[1..] ==> p(x)) ==> Keep(s[1..], p) == s[1..]
    ensures |Keep(s, p)| == |s| <==> forall x :: x in s ==> p(x)
    ensures (forall x :: x in s ==> p(x)) ==> Keep(s, p) == s
  {
    assert Keep(s, p) == [s[0]] + Keep(s[1..], p);
    assert s == [s[0]] + s[1..];
  }

  /** The step of `KeepAll` when the first row fails: something is dropped. */
  lemma KeepAllFail(s: seq<Task>, p: Task -> bool)
    requires s != [] && !p(s[0])
    ensures |Keep(s, p)| < |s|
    ensures !forall x :: x in s ==> p(x)
  {
    assert s[0] in s;
    assert |Keep(s, p)| <= |s[1..]|;
  }

  function CreatedAt(t: Task): int { t.createdAt }

  /** `key` strictly increases along `s`. */
  predicate Increasing(s: seq<Task>, key: Task -> int) {
    forall i, j :: 0 <= i < j < |s| ==> key(s[i]) < key(s[j])
  }

  lemma IncreasingTail(s: seq<Task>, key: Task -> int)
    requires s != [] && Increasing(s, key)
    ensures Increasing(s[1..], key)
    ensures forall y :: y in s[1..] ==> key(s[0]) < key(y)
  {
    forall i, j | 0 <= i < j < |s[1..]| ensures key(s[1..][i]) < key(s[1..][j]) {
      assert s[1..][i] == s[i + 1] && s[1..][j] == s[j + 1];
    }
    forall y | y in s[1..] ensures key(s[0]) < key(y) {
      var j :| 0 <= j < |s[1..]| && s[1..][j] == y;
      assert s[j + 1] == y;
    }
  }

  lemma IncreasingCons(x: Task, s: seq<Task>, key: Task -> int)
    requires Increasing(s, key)
    requires forall y :: y in s ==> key(x) < key(y)
    ensures Increasing([x] + s, key)
  {
    var r := [x] + s;
    forall i, j | 0 <= i < j < |r| ensures key(r[i]) < key(r[j]) {
      assert r[j] == s[j - 1];
      if i == 0 {
        assert s[j - 1] in s;
      } else {
        assert r[i] == s[i - 1];
      }
    }
  }

  /** Keeping some rows keeps them in order. */
  lemma {:induction false} KeepIncreasing(s: seq<Task>, p: Task -> bool, key: Task -> int)
    requires Increasing(s, key)
    ensures Increasing(Keep(s, p), key)
  {
    if s != [] {
      IncreasingTail(s, key);
      KeepIncreasing(s[1..], p, key);
      if p(s[0]) {
        IncreasingCons(s[0], Keep(s[1..], p), key);
      }
    }
  }

  /** Creation times never increase along `s`: the newest row comes first. */
  predicate NewestFirst(s: seq<Task>) {
    forall i, j :: 0 <= i < j < |s| ==> s[i].createdAt >= s[j].createdAt
  }

  lemma NewestFirstTail(s: seq<Task>)
    requires s != [] && NewestFirst(s)
    ensures NewestFirst(s[1..])
    ensures forall y :: y in s ==> s[0].createdAt >= y.createdAt
  {
    forall i, j | 0 <= i < j < |s[1..]| ensures s[1..][i].createdAt >= s[1..][j].createdAt {
      assert s[1..][i] == s[i + 1] && s[1..][j] == s[j + 1];
    }
  }

  lemma NewestFirstCons(x: Task, s: seq<Task>)
    requires NewestFirst(s)
    requires forall y :: y in s ==> x.createdAt >= y.createdAt
    ensures NewestFirst([x] + s)
  {
    var r := [x] + s;
    forall i, j | 0 <= i < j < |r| ensures r[i].createdAt >= r[j].createdAt {
      assert r[j] == s[j - 1];
      if i == 0 {
        assert s[j - 1] in s;
      } else {
        assert r[i] == s[i - 1];
      }
    }
  }

  /** A bound on every creation time in `s` and on `x` bounds them after `x` is added. */
  lemma BoundAfterInsert(x: Task, s: seq<Task>, r: seq<Task>, top: int)
    requires multiset(r) == multiset(s) + multiset{x}
    requires top >= x.createdAt && forall y :: y in s ==> top >= y.createdAt
    ensures forall y :: y in r ==> top >= y.createdAt
  {
    forall y | y in r ensures top >= y.createdAt {
      assert y in multiset(r);
      assert y == x || y in multiset(s);
    }
  }

  /** Putting the head of `s` back in front of `x` inserted into its tail inserts `x` into `s`. */
  lemma ConsAfterInsert(x: Task, s: seq<Task>, rest: seq<Task>)
    requires s != [] && NewestFirst(s) && x.createdAt < s[0].createdAt
    requires multiset(rest) == multiset(s[1..]) + multiset{x} && NewestFirst(rest)
    ensures multiset([s[0]] + rest) == multiset(s) + multiset{x}
    ensures NewestFirst([s[0]] + rest)
  {
    assert s == [s[0]] + s[1..];
    NewestFirstTail(s);
    BoundAfterInsert(x, s[1..], rest, s[0].createdAt);
    NewestFirstCons(s[0], rest);
  }

  function InsertByNewest(x: Task, s: seq<Task>): (r: seq<Task>)
    requires NewestFirst(s)
    ensures multiset(r) == multiset(s) + multiset{x}
    ensures NewestFirst(r)
  {
    if s == [] then [x]
    else
      NewestFirstTail(s);
      if x.createdAt >= s[0].createdAt then
        NewestFirstCons(x, s);
        [x] + s
      else
        var rest := InsertByNewest(x, s[1..]);
        ConsAfterInsert(x, s, rest);
        [s[0]] + rest
  }

  /** `ORDER BY createdAt DESC`: a reordering of `s` with the newest row first. */
  function SortByNewest(s: seq<Task>): (r: seq<Task>)
    ensures multiset(r) == multiset(s)
    ensures |r| == |s|
    ensures NewestFirst(r)
  {
    if s == [] then []
    else
      assert s == [s[0]] + s[1..];
      var r := InsertByNewest(s[0], SortByNewest(s[1..]));
      assert |r| == |multiset(r)| == |multiset(s)| == |s|;
      r
  }

  function Reverse(s: seq<Task>): (r: seq<Task>)
    ensures |r| == |s|
  {
    if s == [] then [] else Reverse(s[1..]) + [s[0]]
  }

  lemma {:induction false} InsertOldest(x: Task, s: seq<Task>)
    requires NewestFirst(s)
    requires forall y :: y in s ==> x.createdAt < y.createdAt
    ensures InsertByNewest(x, s) == s + [x]
  {
    if s != [] {
      NewestFirstTail(s);
      assert s[0] in s;
      InsertOldest(x, s[1..]);
      assert s == [s[0]] + s[1..];
    }
  }

  /**
   * When rows were stored in creation order, as the store keeps them, newest
   * first is the reverse of storage order: rows created A, B, C list as C, B, A.
   */
  lemma {:induction false} SortByNewestOfCreationOrder(s: seq<Task>)
    requires Increasing(s, CreatedAt)
    ensures SortByNewest(s) == Reverse(s)
  {
    if s != [] {
      IncreasingTail(s, CreatedAt);
      SortByNewestOfCreationOrder(s[1..]);
      var sorted := SortByNewest(s[1..]);
      forall y | y in sorted ensures s[0].createdAt < y.createdAt {
        assert y in multiset(sorted);
        assert y in s[1..];
      }
      InsertOldest(s[0], sorted);
    }
  }

  /** `r` is `ceil(n / d)`: the least number of blocks of `d` that hold `n` rows. */
  predicate IsCeil(r: int, n: int, d: int) {
    r * d >= n && (r - 1) * d < n
  }

  /** `ceil(n / d)` on integers. */
  function CeilDiv(n: nat, d: int): (r: nat)
    requires d >= 1
    ensures IsCeil(r, n, d)
  {
    var q := (n + d - 1) / d;
    assert q * d <= n + d - 1 < q * d + d;
    q
  }

  /** `r` holds each selected row of `table` as often as the table does, and no other row. */
  ghost predicate CountsSelected(r: seq<Task>, table: seq<Task>, filters: Option<Filters>) {
    forall t :: multiset(r)[t] == if Selected(t, filters) then multiset(table)[t] else 0
  }

  /** The rows a listing selects, newest first, before paging. */
  function Matching(table: seq<Task>, filters: Option<Filters>): (r: seq<Task>)
    ensures |r| <= |table|
    ensures forall t :: t in r <==> t in table && Selected(t, filters)
    ensures CountsSelected(r, table, filters)
    ensures NewestFirst(r)
  {
    var conds := Conditions(filters);
    var kept := Keep(table, t => Where(conds, t));
    forall t ensures Where(conds, t) <==> Selected(t, filters) {
      ConditionsMeanSelected(t, filters);
    }
    var r := SortByNewest(kept);
    forall t ensures t in r <==> t in kept { assert t in r <==> t in multiset(r); }
    r
  }

  function Min(a: int, b: int): int {
    if a <= b then a else b
  }

  /** `r` holds the rows of `s` from position `offset` on, in order. */
  predicate RowsFrom(r: seq<Task>, s: seq<Task>, offset: int) {
    forall j :: 0 <= j < |r| ==> 0 <= offset + j < |s| && r[j] == s[offset + j]
  }

  /** The rows `OFFSET offset LIMIT limit` returns from `s`. */
  function Slice(s: seq<Task>, offset: nat, limit: nat): (r: seq<Task>)
    ensures |r| <= limit
    ensures offset >= |s| ==> r == []
    ensures offset < |s| ==> |r| == Min(limit, |s| - offset)
    ensures RowsFrom(r, s, offset)
    ensures forall t :: t in r ==> t in s
    ensures NewestFirst(s) ==> NewestFirst(r)
  {
    if offset >= |s| then [] else
      var r := s[offset..Min(offset + limit, |s|)];
      assert forall j :: 0 <= j < |r| ==> r[j] == s[offset + j];
      r
  }

  datatype Meta = Meta(total: nat, page: int, limit: int, totalPages: nat)

  /** One page of a listing and its metadata. */
  datatype TaskPage = TaskPage(data: seq<Task>, meta: Meta)

  /** The number of rows skipped before page `page`. */
  function Offset(page: int, limit: int): (r: nat)
    requires page >= 1 && limit >= 1
  {
    (page - 1) * limit
  }

  const DefaultPage := 1
  const DefaultLimit := 10
  const MaxLimit := 100

  /**
   * `findAll(page = 1, limit = 10, filters)`: rejects a page below 1, then a
   * limit outside 1..100, before reading anything; otherwise returns the page
   * of the selected rows, newest first, with the number of selected rows, the
   * echoed page and limit, and the number of pages.
   */
  function FindAll(table: seq<Task>, page: Option<int>, limit: Option<int>,
                   filters: Option<Filters>): (r: Result<TaskPage, Error>)
    ensures page.GetOr(1) < 1 ==> r == Failure(InvalidPage)
    ensures page.GetOr(1) >= 1 && (limit.GetOr(10) < 1 || limit.GetOr(10) > 100) ==>
      r == Failure(InvalidLimit)
    ensures r.Success? <==> page.GetOr(1) >= 1 && 1 <= limit.GetOr(10) <= 100
    ensures r.Success? ==>
      var l, all, pg := limit.GetOr(10), Matching(table, filters), r.value;
      var offset := Offset(page.GetOr(1), l);
      && pg.meta == Meta(|all|, page.GetOr(1), l, pg.meta.totalPages)
      && IsCeil(pg.meta.totalPages, |all|, l)
      && |pg.data| <= l
      && (offset >= |all| ==> pg.data == [])
      && (offset < |all| ==> |pg.data| == Min(l, |all| - offset))
      && RowsFrom(pg.data, all, offset)
      && (forall t :: t in pg.data ==> t in table && Selected(t, filters))
      && NewestFirst(pg.data)
  {
    var p, l := page.GetOr(DefaultPage), limit.GetOr(DefaultLimit);
    if p < 1 then Failure(InvalidPage)
    else if l < 1 || l > MaxLimit then Failure(InvalidLimit)
    else
      var all := Matching(table, filters);
      var offset := Offset(p, l);
      var data := Slice(all, offset, l);
      var pages := CeilDiv(|all|, l);
      Success(TaskPage(data, Meta(|all|, p, l, pages)))
  }

  /** `findAll` refuses only as a bad request (400), never as not-found. */
  lemma FindAllStatus(table: seq<Task>, page: Option<int>, limit: Option<int>, filters: Option<Filters>)
    ensures var r := FindAll(table, page, limit, filters);
      r.Failure? ==> HttpStatus(r.error) == 400 && (r.error == InvalidPage || r.error == InvalidLimit)
  {
  }

  /** The page a row at position `k` of the listing falls on. */
  function PageOfPosition(k: nat, limit: int): (page: int)
    requires limit >= 1
    ensures page >= 1
    ensures Offset(page, limit) <= k < Offset(page, limit) + limit
  {
    var p := k / limit + 1;
    assert Offset(p, limit) == (k / limit) * limit;
    p
  }

  /**
   * Every selected row appears on the page its position puts it on, at its
   * place within that page: position `Offset(page, limit) + i` of the listing
   * is row `i` of page `page` (and by `PageOfPosition` every position has such
   * a page).
   */
  lemma EveryMatchOnItsPage(table: seq<Task>, filters: Option<Filters>, limit: int, page: int, i: int)
    requires 1 <= limit <= 100 && page >= 1 && 0 <= i < limit
    requires Offset(page, limit) + i < |Matching(table, filters)|
    ensures var r := FindAll(table, Some(page), Some(limit), filters);
      r.Success? && i < |r.value.data| && r.value.data[i] == Matching(table, filters)[Offset(page, limit) + i]
  {
    var all := Matching(table, filters);
    PageIsSlice(table, filters, limit, page);
    RowOfSlice(all, Offset(page, limit), limit, i);
  }

  /** A valid page of the listing is the slice of the selected rows at its offset. */
  lemma PageIsSlice(table: seq<Task>, filters: Option<Filters>, limit: int, page: int)
    requires 1 <= limit <= 100 && page >= 1
    ensures var r := FindAll(table, Some(page), Some(limit), filters);
      r.Success? && r.value.data == Slice(Matching(table, filters), Offset(page, limit), limit)
  {
  }

  lemma RowOfSlice(all: seq<Task>, offset: nat, limit: nat, i: int)
    requires 0 <= i < limit && offset + i < |all|
    ensures i < |Slice(all, offset, limit)| && Slice(all, offset, limit)[i] == all[offset + i]
  {
  }

  lemma MayDatesOrder()
    ensures LexLe("2024-05-01", "2024-05-01") && LexLe("2024-05-01", "2024-05-31")
    ensures LexLe("2024-05-01", "2024-05-15") && LexLe("2024-05-15", "2024-05-31")
  {
    var may := "2024-05-";
    assert "2024-05-01" == may + "01" && "2024-05-15" == may + "15" && "2024-05-31" == may + "31";
    LexLeCommonPrefix(may, "01", "01");
    LexLeCommonPrefix(may, "01", "15");
    LexLeCommonPrefix(may, "01", "31");
    LexLeCommonPrefix(may, "15", "31");
  }

  lemma JuneDateOrder()
    ensures !LexLe("2024-06-01", "2024-05-31")
  {
    var y := "2024-0";
    assert "2024-06-01" == y + "6-01" && "2024-05-31" == y + "5-31";
    LexLeCommonPrefix(y, "6-01", "5-31");
  }

  /** Rows due 2024-05-01, 2024-05-15 and 2024-06-01: the range May 1..31 selects the first two. */
  lemma DateRangeExample(t1: Task, t2: Task, t3: Task)
    requires t1.dueDate == "2024-05-01" && t2.dueDate == "2024-05-15" && t3.dueDate == "2024-06-01"
    ensures var f := Some(NoFilters.(startDate := Some("2024-05-01"), endDate := Some("2024-05-31")));
      Selected(t1, f) && Selected(t2, f) && !Selected(t3, f)
  {
    MayDatesOrder();
    JuneDateOrder();
  }

  /** The search "doc" finds "Complete Project Documentation" and "DOC review". */
  lemma SearchExample(t1: Task, t2: Task)
    requires t1.name == "Complete Project Documentation" && t2.name == "DOC review"
    ensures var f := Some(NoFilters.(search := Some("doc")));
      Selected(t1, f) && Selected(t2, f)
  {
    assert t1.name[17..20] == "Doc";
    SearchHit(t1.name, "doc", 17);
    assert t2.name[0..3] == "DOC";
    SearchHit(t2.name, "doc", 0);
  }

  /** A plain search text found at some position of a name selects that name. */
  lemma SearchHit(name: string, q: string, i: int)
    requires Plain(q) && OccursAt(name, q, i)
    ensures ILike(name, "%" + q + "%")
  {
    ILikeContains(name, q);
  }
}
