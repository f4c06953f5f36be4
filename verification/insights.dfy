/** Insights (blog-like posts): listing arithmetic, view counting, creation
    with display-order bookkeeping and subscriber notification, explicit
    reordering, the status toggle and the popular list. */
module Insights {
  import opened Common
  import Rows
  import Accounts
  import Subscribers

  /** `viewCount` and `displayOrder` default to 0, `isActive` to true;
      `createdAt` is the creation instant; `author` is the author's id. */
  datatype Insight = Insight(id: string, title: string, content: string, image: string,
                             viewCount: int, isActive: bool, displayOrder: int,
                             createdAt: nat, author: Option<string>)

  type Table = seq<Insight>

  predicate UniqueIds(t: Table) {
    forall i, j :: 0 <= i < j < |t| ==> t[i].id != t[j].id
  }

  function IdOf(x: Insight): string { x.id }

  function FindById(t: Table, id: string): (r: Option<nat>)
    ensures r.Some? ==> r.value < |t| && t[r.value].id == id
    ensures r.Some? ==> forall i :: 0 <= i < r.value ==> t[i].id != id
    ensures r.None? <==> forall i :: 0 <= i < |t| ==> t[i].id != id
  {
    Rows.IndexOfKey(t, IdOf, id)
  }

  const InsightNotFound := Reply(NotFound, "Insight not found")

  // ---- listing arithmetic (getInsights) ----

  const ValidSortFields: seq<string> := ["title", "viewCount", "displayOrder", "createdAt"]
  const DefaultSortField := "createdAt"
  const DefaultPage := 1
  const DefaultLimit := 20

  /** The column the listing is ordered by: the requested one when it is on
      the whitelist, `createdAt` otherwise (also when none is given). */
  function SortField(sortBy: JsValue): (f: string)
    ensures f in ValidSortFields
    ensures sortBy.Str? && sortBy.s in ValidSortFields ==> f == sortBy.s
    ensures !(sortBy.Str? && sortBy.s in ValidSortFields) ==> f == DefaultSortField
  {
    var requested := if sortBy == Undefined then Str(DefaultSortField) else sortBy;
    if requested.Str? && requested.s in ValidSortFields then requested.s else DefaultSortField
  }

  datatype Direction = Asc | Desc

  /** Descending exactly for `desc`, which is also the default. */
  function SortDirection(sortOrder: JsValue): (d: Direction)
    ensures d == Desc <==> sortOrder == Str("desc") || sortOrder == Undefined
  {
    var requested := if sortOrder == Undefined then Str("desc") else sortOrder;
    if requested == Str("desc") then Desc else Asc
  }

  /** Rows before the requested page: `(page - 1) * limit`. */
  function Offset(page: int, limit: int): (skip: int)
    ensures page >= 1 && limit >= 0 ==> skip >= 0
    ensures page >= 1 && limit >= 0 ==> skip == Offset(page - 1, limit) + limit
  {
    (page - 1) * limit
  }

  /** A JavaScript number as far as page counts go. */
  datatype JsNumber = Finite(n: int) | Infinity | NaN

  /** `Math.ceil(total / limit)`: the least page count that covers `total`
      rows; division by zero gives `Infinity`, or `NaN` for `0 / 0`. */
  function PageCount(total: nat, limit: int): (r: JsNumber)
    ensures limit > 0 ==> r.Finite? && r.n >= 0 && r.n * limit >= total > (r.n - 1) * limit
    ensures limit > 0 && total == 0 ==> r == Finite(0)
    ensures limit == 0 ==> r == if total == 0 then NaN else Infinity
    ensures limit < 0 ==> r.Finite? && r.n * limit <= total < (r.n - 1) * limit
  {
    if limit > 0 then Finite((total + limit - 1) / limit)
    else if limit == 0 then (if total == 0 then NaN else Infinity)
    else Finite(-(total / -limit))
  }

  /** The rows of one page of a listing: skip `Offset` rows, take `limit`. */
  function PageOf<T>(rows: seq<T>, page: int, limit: int): (r: seq<T>)
    requires page >= 1 && limit >= 1
    ensures |r| <= limit
    ensures forall k :: 0 <= k < |r| ==> Offset(page, limit) + k < |rows| && r[k] == rows[Offset(page, limit) + k]
  {
    var skip := Offset(page, limit);
    if skip >= |rows| then [] else rows[skip..if skip + limit < |rows| then skip + limit else |rows|]
  }

  /** The arithmetic behind `EveryRowOnItsPage`, free of sequences. */
  lemma {:induction false} PageArithmetic(total: nat, limit: int, x: nat)
    requires limit >= 1 && x < total
    ensures 0 <= (x / limit) * limit <= x < (x / limit) * limit + limit
    ensures x / limit < PageCount(total, limit).n
  {
    var q := x / limit;
    DivisionBounds(x, limit);
    var n := PageCount(total, limit).n;
    assert n * limit >= total;
    BelowProductBound(q, n, limit);
  }

  /** `q = x / limit` brackets `x` between `q * limit` and the next multiple. */
  lemma {:induction false} DivisionBounds(x: nat, limit: int)
    requires limit >= 1
    ensures 0 <= (x / limit) * limit <= x < (x / limit) * limit + limit
  {
    var q, r := x / limit, x % limit;
    assert x == q * limit + r && 0 <= r < limit;
    assert q >= 0;
  }

  /** Cancelling a positive factor: `q * c < n * c` gives `q < n`. */
  lemma {:induction false} BelowProductBound(q: int, n: int, c: int)
    requires c >= 1 && q * c < n * c
    ensures q < n
  {
  }

  /** Every row of a listing lies on exactly the page its index says, and
      that page is within the page count. */
  lemma {:induction false} EveryRowOnItsPage<T>(rows: seq<T>, limit: int, x: nat)
    requires limit >= 1 && x < |rows|
    ensures 1 <= x / limit + 1 <= PageCount(|rows|, limit).n
    ensures Offset(x / limit + 1, limit) <= x < Offset(x / limit + 1, limit) + limit
    ensures PageOf(rows, x / limit + 1, limit)[x - Offset(x / limit + 1, limit)] == rows[x]
  {
    PageArithmetic(|rows|, limit, x);
    var skip := Offset(x / limit + 1, limit);
    assert skip == (x / limit) * limit;
    var p := PageOf(rows, x / limit + 1, limit);
    assert p == rows[skip..if skip + limit < |rows| then skip + limit else |rows|];
  }

  /** The filters of the listing query: by author when one is given, by
      status when the parameter is present at all. */
  predicate Matches(x: Insight, authorId: JsValue, isActive: JsValue) {
    && (Truthy(authorId) ==> authorId.Str? && x.author == Some(authorId.s))
    && (isActive != Undefined ==> x.isActive == (isActive == Str("true")))
  }

  datatype Pagination = Pagination(page: int, limit: int, total: nat, pages: JsNumber)

  /** What `getInsights` asks the database for and reports: the matching
      rows, the ordering column and direction, the rows to skip and take,
      and the pagination block. */
  datatype Listing = Listing(matching: seq<Insight>, sortField: string, direction: Direction,
                             skip: int, take: int, pagination: Pagination)

  /** `getInsights`. `page` and `limit` are `None` when the query leaves
      them out (defaults 1 and 20). The listing holds every copy of a
      matching row and nothing else, is ordered by the whitelisted column in
      the requested direction, skips the rows of the earlier pages, takes
      one page, and reports a page count covering every matching row. */
  function GetInsights(t: Table, authorId: JsValue, isActive: JsValue, page: Option<int>, limit: Option<int>,
                       sortBy: JsValue, sortOrder: JsValue): (r: Listing)
    ensures forall k :: 0 <= k < |r.matching| ==> r.matching[k] in t && Matches(r.matching[k], authorId, isActive)
    ensures forall k :: 0 <= k < |t| && Matches(t[k], authorId, isActive) ==> t[k] in r.matching
    ensures multiset(r.matching) <= multiset(t)
    ensures forall k :: 0 <= k < |t| ==>
              multiset(r.matching)[t[k]] == if Matches(t[k], authorId, isActive) then multiset(t)[t[k]] else 0
    ensures r.sortField == SortField(sortBy) && r.direction == SortDirection(sortOrder)
    ensures var pg, lim := page.GetOr(DefaultPage), limit.GetOr(DefaultLimit);
            && r.skip == Offset(pg, lim) && r.take == lim
            && r.pagination == Pagination(pg, lim, |r.matching|, PageCount(|r.matching|, lim))
    ensures page.None? && limit.None? ==>
              && r.skip == 0 && r.take == 20 && r.pagination.pages.Finite?
              && r.pagination.pages.n * 20 >= |r.matching| > (r.pagination.pages.n - 1) * 20
  {
    var p := (x: Insight) => Matches(x, authorId, isActive);
    Rows.FilterCounts(t, p);
    var matching := Rows.Filter(t, p);
    var pg, lim := page.GetOr(DefaultPage), limit.GetOr(DefaultLimit);
    Listing(matching, SortField(sortBy), SortDirection(sortOrder), Offset(pg, lim), lim,
            Pagination(pg, lim, |matching|, PageCount(|matching|, lim)))
  }

  // ---- single insight ----

  datatype Step = Step(reply: Reply, insight: Option<Insight>, table: Table)

  /** `getInsight`: each read counts one view; nothing else changes. */
  function GetInsight(t: Table, id: string): (out: Step)
    ensures FindById(t, id).None? ==> out == Step(InsightNotFound, None, t)
    ensures FindById(t, id).Some? ==>
              var i := FindById(t, id).value;
              && out.reply.status == Ok
              && |out.table| == |t|
              && out.table[i].viewCount == t[i].viewCount + 1
              && out.table[i] == t[i].(viewCount := out.table[i].viewCount)
              && out.insight == Some(out.table[i])
              && forall k :: 0 <= k < |t| && k != i ==> out.table[k] == t[k]
  {
    match FindById(t, id)
    case None => Step(InsightNotFound, None, t)
    case Some(i) =>
      var x := t[i].(viewCount := t[i].viewCount + 1);
      Step(Reply(Ok, ""), Some(x), t[i := x])
  }

  /** A read keeps every key, every display order and every status, so it
      keeps keys unique and never disturbs the listing order. */
  lemma {:induction false} GetInsightKeepsOrder(t: Table, id: string)
    ensures var t' := GetInsight(t, id).table;
            && |t'| == |t|
            && DisplayOrders(t') == DisplayOrders(t)
            && (forall k :: 0 <= k < |t| ==> t'[k].id == t[k].id && t'[k].isActive == t[k].isActive)
            && (UniqueIds(t) ==> UniqueIds(t'))
  {
    var t' := GetInsight(t, id).table;
    assert forall k :: 0 <= k < |t| ==> t'[k].id == t[k].id && t'[k].displayOrder == t[k].displayOrder;
  }

  /** `n` successive reads of the same insight. */
  function ReadTimes(t: Table, id: string, n: nat): Table
    decreases n
  {
    if n == 0 then t else ReadTimes(GetInsight(t, id).table, id, n - 1)
  }

  /** `n` reads add exactly `n` views to the insight read and change
      nothing else. */
  lemma {:induction false} ReadsAddViews(t: Table, id: string, n: nat)
    requires FindById(t, id).Some?
    ensures var i := FindById(t, id).value;
            ReadTimes(t, id, n) == t[i := t[i].(viewCount := t[i].viewCount + n)]
    decreases n, 1
  {
    var i := FindById(t, id).value;
    if n == 0 {
      assert t[i := t[i]] == t;
    } else {
      ReadsAddViewsStep(t, id, n, i, GetInsight(t, id).table);
    }
  }

  /** The inductive step: the first read, then the remaining `n - 1`. */
  lemma {:induction false} ReadsAddViewsStep(t: Table, id: string, n: nat, i: nat, t1: Table)
    requires n > 0 && FindById(t, id) == Some(i) && t1 == GetInsight(t, id).table
    ensures ReadTimes(t, id, n) == t[i := t[i].(viewCount := t[i].viewCount + n)]
    decreases n, 0
  {
    ReadOnce(t, id, i, t1);
    assert ReadTimes(t, id, n) == ReadTimes(t1, id, n - 1);
    ReadsAddViews(t1, id, n - 1);
    var x := t[i].(viewCount := t[i].viewCount + n);
    assert t1[i].(viewCount := t1[i].viewCount + (n - 1)) == x;
    Rows.UpdateTwice(t, i, t1[i], x);
  }

  /** One read adds one view to the insight at its row and keeps it there. */
  lemma ReadOnce(t: Table, id: string, i: nat, t1: Table)
    requires FindById(t, id) == Some(i) && t1 == GetInsight(t, id).table
    ensures t1 == t[i := t[i].(viewCount := t[i].viewCount + 1)]
    ensures FindById(t1, id) == Some(i)
  {
    GetInsightKeepsOrder(t, id);
    Rows.SameKeysSameIndex(t, t1, IdOf, id);
  }

  /** `toggleInsightStatus`: flips `isActive` and reports the new status. */
  function ToggleInsightStatus(t: Table, id: string): (out: Step)
    ensures FindById(t, id).None? ==> out == Step(InsightNotFound, None, t)
    ensures FindById(t, id).Some? ==>
              var i := FindById(t, id).value;
              && |out.table| == |t|
              && out.table[i] == t[i].(isActive := !t[i].isActive)
              && (forall k :: 0 <= k < |t| && k != i ==> out.table[k] == t[k])
              && out.reply == Reply(Ok, if out.table[i].isActive then "Insight activated successfully"
                                        else "Insight deactivated successfully")
  {
    match FindById(t, id)
    case None => Step(InsightNotFound, None, t)
    case Some(i) =>
      var x := t[i].(isActive := !t[i].isActive);
      Step(Reply(Ok, if x.isActive then "Insight activated successfully" else "Insight deactivated successfully"),
           None, t[i := x])
  }

  /** Toggling twice restores the table. */
  lemma {:induction false} ToggleTwiceRestores(t: Table, id: string)
    ensures ToggleInsightStatus(ToggleInsightStatus(t, id).table, id).table == t
  {
    var t' := ToggleInsightStatus(t, id).table;
    if FindById(t, id).Some? {
      var i := FindById(t, id).value;
      assert forall k :: 0 <= k < |t| ==> t'[k].id == t[k].id;
      assert FindById(t', id) == Some(i);
      var t'' := ToggleInsightStatus(t', id).table;
      assert forall k :: 0 <= k < |t| ==> t''[k] == t[k];
    }
  }

  // ---- creation ----

  const PreviewLength := 180
  const DefaultFrontend := "https://oncg.com"
  const AuthorNotFound := Reply(NotFound, "Author not found")

  /** The notification text: the first 180 characters of the content. */
  function Preview(content: string): (p: string)
    ensures |p| == if |content| < PreviewLength then |content| else PreviewLength
    ensures p == content[..|p|]
  {
    if |content| < PreviewLength then content else content[..PreviewLength]
  }

  function DisplayOrders(t: Table): (r: seq<int>)
    ensures |r| == |t| && forall k :: 0 <= k < |t| ==> r[k] == t[k].displayOrder
  {
    seq(|t|, k requires 0 <= k < |t| => t[k].displayOrder)
  }

  /** One notice per active subscriber, in table order. */
  function Notices(subscribers: Subscribers.Table, title: string, preview: string, link: string): (m: seq<Mail>)
    ensures var active := Subscribers.ActiveOnly(subscribers);
            |m| == |active| && forall k :: 0 <= k < |m| ==> m[k] == InsightNotice(active[k].email, title, preview, link)
  {
    var active := Subscribers.ActiveOnly(subscribers);
    seq(|active|, k requires 0 <= k < |active| => InsightNotice(active[k].email, title, preview, link))
  }

  datatype CreateStep = CreateStep(reply: Reply, insight: Option<Insight>, table: Table, mail: seq<Mail>)

  /** `createInsight`. `upload` is the uploaded image URL, `frontend` the
      configured site URL ("" when unset), `now` the creation instant. An
      unknown author refuses the request before anything is saved.
      Otherwise the insight goes to the end of the display order and every
      active subscriber gets one notice. */
  function CreateInsight(t: Table, users: Accounts.Table, subscribers: Subscribers.Table,
                         title: string, content: string, authorId: JsValue, isActive: Option<bool>,
                         upload: Option<string>, freshId: string, now: nat, frontend: string): (out: CreateStep)
    ensures Truthy(authorId) && !(authorId.Str? && Accounts.FindById(users, authorId.s).Some?) ==>
              out == CreateStep(AuthorNotFound, None, t, [])
    ensures out.reply.status == Created <==>
              !Truthy(authorId) || (authorId.Str? && Accounts.FindById(users, authorId.s).Some?)
    ensures out.reply.status == Created ==>
              && |out.table| == |t| + 1 && out.table[..|t|] == t
              && out.insight == Some(out.table[|t|])
              && var x := out.table[|t|];
              && x.id == freshId && x.title == title && x.content == content
              && x.viewCount == 0 && x.createdAt == now
              && x.isActive == isActive.GetOr(true)
              && x.image == upload.GetOr("")
              && x.author == (if Truthy(authorId) then Some(authorId.s) else None)
              && (forall k :: 0 <= k < |t| ==> t[k].displayOrder < x.displayOrder)
              && (|t| == 0 ==> x.displayOrder == 1)
              && (|t| > 0 ==> exists k :: 0 <= k < |t| && t[k].displayOrder + 1 == x.displayOrder)
              && out.mail == Notices(subscribers, title, Preview(content),
                                     (if frontend == "" then DefaultFrontend else frontend) + "/insights/" + freshId)
  {
    var order := Rows.NextOrder(DisplayOrders(t));
    if Truthy(authorId) && !(authorId.Str? && Accounts.FindById(users, authorId.s).Some?) then
      CreateStep(AuthorNotFound, None, t, [])
    else
      var author := if Truthy(authorId) then Some(authorId.s) else None;
      var x := Insight(freshId, title, content, upload.GetOr(""), 0, isActive.GetOr(true), order, now, author);
      var link := (if frontend == "" then DefaultFrontend else frontend) + "/insights/" + freshId;
      CreateStep(Reply(Created, ""), Some(x), t + [x], Notices(subscribers, title, Preview(content), link))
  }

  /** With unique subscriber e-mails, a new insight notifies every active
      subscriber exactly once and no inactive one. */
  lemma {:induction false} NotifiesActiveSubscribersOnce(subscribers: Subscribers.Table, title: string,
                                                         preview: string, link: string)
    requires Subscribers.UniqueEmails(subscribers)
    ensures var m := Notices(subscribers, title, preview, link);
            && (forall k :: 0 <= k < |subscribers| ==>
                  (subscribers[k].isActive <==> exists p :: 0 <= p < |m| && m[p].to == subscribers[k].email))
            && (forall p, q :: 0 <= p < q < |m| ==> m[p].to != m[q].to)
  {
    NoticesDistinct(subscribers, title, preview, link);
    forall k | 0 <= k < |subscribers|
      ensures var m := Notices(subscribers, title, preview, link);
              subscribers[k].isActive <==> exists p :: 0 <= p < |m| && m[p].to == subscribers[k].email
    {
      NoticeReaches(subscribers, title, preview, link, k);
    }
  }

  /** With unique subscriber e-mails, no two notices go to the same address. */
  lemma {:induction false} NoticesDistinct(subscribers: Subscribers.Table, title: string,
                                           preview: string, link: string)
    requires Subscribers.UniqueEmails(subscribers)
    ensures var m := Notices(subscribers, title, preview, link);
            forall p, q :: 0 <= p < q < |m| ==> m[p].to != m[q].to
  {
    var active := Subscribers.ActiveOnly(subscribers);
    Rows.FilterKeepsDistinctKeys(subscribers, Subscribers.IsActive, (x: Subscribers.Subscriber) => x.email);
    assert forall p, q :: 0 <= p < q < |active| ==> active[p].email != active[q].email;
  }

  /** One subscriber of a table with unique e-mails is sent a notice
      exactly when it is active. */
  lemma {:induction false} NoticeReaches(subscribers: Subscribers.Table, title: string,
                                         preview: string, link: string, k: nat)
    requires Subscribers.UniqueEmails(subscribers) && k < |subscribers|
    ensures var m := Notices(subscribers, title, preview, link);
            subscribers[k].isActive <==> exists p :: 0 <= p < |m| && m[p].to == subscribers[k].email
  {
    var m := Notices(subscribers, title, preview, link);
    var active := Subscribers.ActiveOnly(subscribers);
    if subscribers[k].isActive {
      assert subscribers[k] in active;
      var p :| 0 <= p < |active| && active[p] == subscribers[k];
      assert m[p].to == subscribers[k].email;
    }
    if exists p :: 0 <= p < |m| && m[p].to == subscribers[k].email {
      var p :| 0 <= p < |m| && m[p].to == subscribers[k].email;
      assert active[p] in subscribers && active[p].isActive;
      var j :| 0 <= j < |subscribers| && subscribers[j] == active[p];
      assert subscribers[j].email == subscribers[k].email;
      assert j == k;
    }
  }

  // ---- explicit display order ----

  datatype OrderItem = OrderItem(id: string, displayOrder: int)

  predicate DistinctIds(items: seq<OrderItem>) {
    forall p, q :: 0 <= p < q < |items| ==> items[p].id != items[q].id
  }

  /** `update(id, { displayOrder })`. */
  function SetDisplayOrder(t: Table, item: OrderItem): (t': Table)
    ensures |t'| == |t|
    ensures forall k :: 0 <= k < |t| ==>
              t'[k] == if t[k].id == item.id then t[k].(displayOrder := item.displayOrder) else t[k]
  {
    seq(|t|, k requires 0 <= k < |t| => if t[k].id == item.id then t[k].(displayOrder := item.displayOrder) else t[k])
  }

  /** The updates of the list applied one after the other. Only display
      orders change; an unlisted insight is untouched; with distinct keys
      each listed insight takes its own entry's order. */
  function ApplyOrders(t: Table, items: seq<OrderItem>): (t': Table)
    ensures |t'| == |t|
    ensures forall k :: 0 <= k < |t| ==> t'[k] == t[k].(displayOrder := t'[k].displayOrder)
    ensures forall k :: 0 <= k < |t| && (forall p :: 0 <= p < |items| ==> items[p].id != t[k].id) ==> t'[k] == t[k]
    ensures DistinctIds(items) ==>
              forall k, p :: 0 <= k < |t| && 0 <= p < |items| && items[p].id == t[k].id ==>
                t'[k].displayOrder == items[p].displayOrder
    decreases |items|
  {
    if |items| == 0 then t
    else
      var rest := items[1..];
      assert forall p :: 0 <= p < |rest| ==> rest[p] == items[p + 1];
      ApplyOrders(SetDisplayOrder(t, items[0]), rest)
  }

  const NotAnArray := Reply(BadRequest, "Insights must be an array")

  /** `updateInsightOrder`. `items` is `None` when the body's list is not an
      array; an empty array is accepted and changes nothing. */
  function UpdateInsightOrder(t: Table, items: Option<seq<OrderItem>>): (out: Step)
    ensures items.None? ==> out == Step(NotAnArray, None, t)
    ensures items.Some? ==>
              && out.reply == Reply(Ok, "Display order updated successfully")
              && |out.table| == |t|
              && (forall k :: 0 <= k < |t| ==> out.table[k] == t[k].(displayOrder := out.table[k].displayOrder))
              && (forall k :: 0 <= k < |t| && (forall p :: 0 <= p < |items.value| ==> items.value[p].id != t[k].id) ==>
                    out.table[k] == t[k])
              && (DistinctIds(items.value) ==>
                    forall k, p :: 0 <= k < |t| && 0 <= p < |items.value| && items.value[p].id == t[k].id ==>
                      out.table[k].displayOrder == items.value[p].displayOrder)
  {
    match items
    case None => Step(NotAnArray, None, t)
    case Some(list) => Step(Reply(Ok, "Display order updated successfully"), None, ApplyOrders(t, list))
  }

  // ---- popular list ----

  /** Most viewed first, newer first among equals. */
  function PopularRank(x: Insight): Rows.Rank {
    Rows.Rank(-x.viewCount, -(x.createdAt as int))
  }

  function IsActive(x: Insight): bool {
    x.isActive
  }

  /** `a` may precede `b` on the popular list. */
  predicate PopularBefore(a: Insight, b: Insight) {
    a.viewCount > b.viewCount || (a.viewCount == b.viewCount && a.createdAt >= b.createdAt)
  }

  /** A sequence sorted by `PopularRank` is in popular order. */
  lemma {:induction false} RankedIsPopular(s: seq<Insight>)
    requires Rows.SortedBy(s, PopularRank)
    ensures forall p, q :: 0 <= p < q < |s| ==> PopularBefore(s[p], s[q])
  {
    forall p, q | 0 <= p < q < |s|
      ensures PopularBefore(s[p], s[q])
    {
      assert Rows.RankLe(PopularRank(s[p]), PopularRank(s[q]));
    }
  }

  /** The `limit` of the popular list when the query has none. */
  const DefaultPopularLimit := 10

  /** `getPopularInsights`: at most `limit` active insights, by view count
      descending and then creation instant descending. */
  function GetPopularInsights(t: Table, limit: Option<nat>): (r: seq<Insight>)
    requires limit.GetOr(DefaultPopularLimit) > 0
    ensures var active, lim := Rows.Filter(t, IsActive), limit.GetOr(DefaultPopularLimit);
            |r| == if lim < |active| then lim else |active|
    ensures forall k :: 0 <= k < |r| ==> r[k] in t && r[k].isActive
    ensures multiset(r) <= multiset(t)
    ensures forall p, q :: 0 <= p < q < |r| ==> PopularBefore(r[p], r[q])
  {
    var sorted := Rows.SortBy(Rows.Filter(t, IsActive), PopularRank);
    TopOfRanked(t, sorted, limit.GetOr(DefaultPopularLimit));
    Rows.Take(sorted, limit.GetOr(DefaultPopularLimit))
  }

  /** The first `lim` rows of the active insights in popular order. */
  lemma {:induction false} TopOfRanked(t: Table, sorted: seq<Insight>, lim: nat)
    requires sorted == Rows.SortBy(Rows.Filter(t, IsActive), PopularRank)
    ensures var active, r := Rows.Filter(t, IsActive), Rows.Take(sorted, lim);
            && |r| == (if lim < |active| then lim else |active|)
            && (forall k :: 0 <= k < |r| ==> r[k] in t && r[k].isActive)
            && multiset(r) <= multiset(t)
            && (forall p, q :: 0 <= p < q < |r| ==> PopularBefore(r[p], r[q]))
  {
    var active := Rows.Filter(t, IsActive);
    Rows.SameRows(sorted, active);
    var r := Rows.Take(sorted, lim);
    assert multiset(r) <= multiset(sorted) == multiset(active) <= multiset(t);
    TopMembers(t, sorted, r);
    RankedIsPopular(sorted);
    TopOrdered(sorted, r);
  }

  /** Rows of a prefix of the sorted active insights are active insights
      of the table. */
  lemma {:induction false} TopMembers(t: Table, sorted: seq<Insight>, r: seq<Insight>)
    requires multiset(sorted) == multiset(Rows.Filter(t, IsActive))
    requires |r| <= |sorted| && r == sorted[..|r|]
    ensures forall k :: 0 <= k < |r| ==> r[k] in t && r[k].isActive
  {
    var active := Rows.Filter(t, IsActive);
    Rows.SameRows(sorted, active);
    forall k | 0 <= k < |r|
      ensures r[k] in t && r[k].isActive
    {
      assert r[k] == sorted[k];
      assert sorted[k] in active;
    }
  }

  /** A prefix of a sequence in popular order is in popular order. */
  lemma {:induction false} TopOrdered(sorted: seq<Insight>, r: seq<Insight>)
    requires forall p, q :: 0 <= p < q < |sorted| ==> PopularBefore(sorted[p], sorted[q])
    requires |r| <= |sorted| && r == sorted[..|r|]
    ensures forall p, q :: 0 <= p < q < |r| ==> PopularBefore(r[p], r[q])
  {
    assert forall k :: 0 <= k < |r| ==> r[k] == sorted[k];
  }

  /** The popular list is a top list: an active insight left off it ranks
      no higher than any insight on it. */
  lemma {:induction false} PopularIsTop(t: Table, limit: Option<nat>, x: Insight)
    requires limit.GetOr(DefaultPopularLimit) > 0
    requires x in t && x.isActive && x !in GetPopularInsights(t, limit)
    ensures forall y :: y in GetPopularInsights(t, limit) ==> Rows.RankLe(PopularRank(y), PopularRank(x))
  {
    var active := Rows.Filter(t, IsActive);
    var sorted := Rows.SortBy(active, PopularRank);
    var r := GetPopularInsights(t, limit);
    assert r == Rows.Take(sorted, limit.GetOr(DefaultPopularLimit));
    var i :| 0 <= i < |t| && t[i] == x;
    assert x in active;
    assert x in multiset(sorted);
    var j :| 0 <= j < |sorted| && sorted[j] == x;
    assert j >= |r|;
    forall y | y in r
      ensures Rows.RankLe(PopularRank(y), PopularRank(x))
    {
      var p :| 0 <= p < |r| && r[p] == y;
      assert sorted[p] == y;
    }
  }
}
