/**
 Browsing: on one snapshot the pages partition a single list, the same whatever order the table
 is stored in, because both sort orders end in the id.
 */
module Browse {
  import opened Common
  import opened Text
  import opened Moderation

  const MAX_PAGE := 1_000_000

  datatype Config = Config(pageSize: int, maxPageSize: int)

  datatype Model = Model(id: int, kind: string, visibility: Visibility, score: int, createdAt: int)

  type Query = map<string, seq<string>>

  datatype Order = Newest | Top

  datatype Response = Response(page: int, perPage: int, total: nat, items: seq<Model>)

  function Values(q: Query, name: string): seq<string> {
    if name in q then q[name] else []
  }

  /** A usable number up to `maximum`; anything else is the default. */
  function PositiveInt(values: seq<string>, default: int, maximum: int): int {
    if values == [] then default
    else
      match ParseInt(values[0])
      case None => default
      case Some(n) => if n < 1 then default else if n < maximum then n else maximum
  }

  function OrderOf(q: Query): Order {
    var values := Values(q, "sort");
    if values != [] && values[0] == "top" then Top else Newest
  }

  predicate Matches(q: Query, m: Model) {
    var values := Values(q, "kind");
    && m.visibility == Public
    && (values != [] && (values[0] == "pixel" || values[0] == "model") ==> m.kind == values[0])
  }

  function Matching(q: Query, rows: seq<Model>): seq<Model> {
    if rows == [] then []
    else (if Matches(q, rows[0]) then [rows[0]] else []) + Matching(q, rows[1..])
  }

  predicate Newer(a: Model, b: Model) {
    a.createdAt > b.createdAt || (a.createdAt == b.createdAt && a.id > b.id)
  }

  /** The ORDER BY of each sort. */
  predicate Before(o: Order, a: Model, b: Model) {
    match o
    case Newest => Newer(a, b)
    case Top => a.score > b.score || (a.score == b.score && Newer(a, b))
  }

  function Insert(o: Order, m: Model, l: seq<Model>): seq<Model> {
    if l == [] || Before(o, m, l[0]) then [m] + l else [l[0]] + Insert(o, m, l[1..])
  }

  function Listing(o: Order, rows: seq<Model>): seq<Model> {
    if rows == [] then [] else Insert(o, rows[0], Listing(o, rows[1..]))
  }

  /** LIMIT and OFFSET: a negative limit is none, a negative offset is zero. */
  function Slice(l: seq<Model>, limit: int, offset: int): seq<Model> {
    var from := if offset < 0 then 0 else if offset > |l| then |l| else offset;
    if limit < 0 || from + limit > |l| then l[from..] else l[from..from + limit]
  }

  function PageItems(l: seq<Model>, page: int, per: int): seq<Model> {
    Slice(l, per, (page - 1) * per)
  }

  function PageOf(q: Query): int {
    PositiveInt(Values(q, "page"), 1, MAX_PAGE)
  }

  function PerPage(cfg: Config, q: Query): int {
    PositiveInt(Values(q, "per_page"), cfg.pageSize, cfg.maxPageSize)
  }

  /** The whole list a query browses. */
  function Whole(q: Query, rows: seq<Model>): seq<Model> {
    Listing(OrderOf(q), Matching(q, rows))
  }

  function Browse(cfg: Config, rows: seq<Model>, q: Query): Response {
    var page, per := PageOf(q), PerPage(cfg, q);
    Response(page, per, |Matching(q, rows)|, PageItems(Whole(q, rows), page, per))
  }

  // ---- one list, whatever the storage order ---------------------------------

  ghost predicate Sorted(o: Order, l: seq<Model>) {
    forall i, j :: 0 <= i < j < |l| ==> Before(o, l[i], l[j])
  }

  ghost predicate DistinctIds(rows: seq<Model>) {
    forall i, j :: 0 <= i < j < |rows| ==> rows[i].id != rows[j].id
  }

  /** Strict and total between different ids. */
  lemma StrictAndTotal(o: Order, a: Model, b: Model, c: Model)
    ensures !Before(o, a, a) && !(Before(o, a, b) && Before(o, b, a))
    ensures Before(o, a, b) && Before(o, b, c) ==> Before(o, a, c)
    ensures a.id != b.id ==> Before(o, a, b) || Before(o, b, a)
  {
  }

  lemma {:induction false} InsertKeeps(o: Order, m: Model, l: seq<Model>)
    requires Sorted(o, l) && forall k :: 0 <= k < |l| ==> l[k].id != m.id
    ensures Sorted(o, Insert(o, m, l)) && multiset(Insert(o, m, l)) == multiset(l) + multiset{m}
  {
    if l == [] {
      assert Insert(o, m, l) == [m];
    } else if Before(o, m, l[0]) {
      forall k | 1 <= k < |l|
        ensures Before(o, m, l[k])
      {
        StrictAndTotal(o, m, l[0], l[k]);
      }
    } else {
      InsertKeeps(o, m, l[1..]);
      var r := Insert(o, m, l[1..]);
      StrictAndTotal(o, l[0], m, m);
      assert l == [l[0]] + l[1..];
      forall k | 0 <= k < |r|
        ensures Before(o, l[0], r[k])
      {
        assert r[k] in multiset(r);
        assert r[k] == m || r[k] in l[1..];
      }
    }
  }

  /** The listing is the rows, in order. */
  lemma {:induction false} ListingSorts(o: Order, rows: seq<Model>)
    requires DistinctIds(rows)
    ensures Sorted(o, Listing(o, rows)) && multiset(Listing(o, rows)) == multiset(rows)
  {
    if rows != [] {
      ListingSorts(o, rows[1..]);
      var rest := Listing(o, rows[1..]);
      assert rows == [rows[0]] + rows[1..];
      forall k | 0 <= k < |rest|
        ensures rest[k].id != rows[0].id
      {
        assert rest[k] in multiset(rest);
        assert rest[k] in rows[1..];
      }
      InsertKeeps(o, rows[0], rest);
    }
  }

  /** Two ordered lists of the same rows have the same first row. */
  lemma SameFirst(o: Order, a: seq<Model>, b: seq<Model>)
    requires Sorted(o, a) && Sorted(o, b) && multiset(a) == multiset(b) && a != []
    ensures b != [] && a[0] == b[0]
  {
    assert a[0] in multiset(a);
    assert a[0] in b;
    assert b[0] in multiset(b);
    assert b[0] in a;
    StrictAndTotal(o, a[0], b[0], a[0]);
  }

  /** There is only one way to order the rows. */
  lemma {:induction false} OneOrder(o: Order, a: seq<Model>, b: seq<Model>)
    requires Sorted(o, a) && Sorted(o, b) && multiset(a) == multiset(b)
    ensures a == b
  {
    if a == [] {
      assert |multiset(b)| == 0;
    } else {
      SameFirst(o, a, b);
      assert a == [a[0]] + a[1..] && b == [b[0]] + b[1..];
      assert multiset(a[1..]) == multiset(a) - multiset{a[0]};
      OneOrder(o, a[1..], b[1..]);
    }
  }

  /** The filter keeps each matching row as often as it occurs, and only those. */
  lemma {:induction false} MatchingKeeps(q: Query, rows: seq<Model>, m: Model)
    ensures multiset(Matching(q, rows))[m] == if Matches(q, m) then multiset(rows)[m] else 0
  {
    if rows != [] {
      MatchingKeeps(q, rows[1..], m);
      assert rows == [rows[0]] + rows[1..];
    }
  }

  lemma {:induction false} MatchingDistinct(q: Query, rows: seq<Model>)
    requires DistinctIds(rows)
    ensures DistinctIds(Matching(q, rows))
  {
    if rows != [] {
      MatchingDistinct(q, rows[1..]);
      var rest := Matching(q, rows[1..]);
      forall k | 0 <= k < |rest|
        ensures rest[k].id != rows[0].id
      {
        MatchingKeeps(q, rows[1..], rest[k]);
        assert rest[k] in multiset(rest);
        assert rest[k] in rows[1..];
      }
    }
  }

  /** The list browsed: the matching rows, each once, in the order asked for. */
  lemma WholeIsSortedMatches(q: Query, rows: seq<Model>)
    requires DistinctIds(rows)
    ensures Sorted(OrderOf(q), Whole(q, rows)) && multiset(Whole(q, rows)) == multiset(Matching(q, rows))
    ensures forall m :: m in Whole(q, rows) <==> m in rows && Matches(q, m)
    ensures |Whole(q, rows)| == |Matching(q, rows)|
  {
    MatchingDistinct(q, rows);
    ListingSorts(OrderOf(q), Matching(q, rows));
    forall m
      ensures m in Whole(q, rows) <==> m in rows && Matches(q, m)
    {
      MatchingKeeps(q, rows, m);
      assert m in Whole(q, rows) <==> m in multiset(Whole(q, rows));
      assert m in rows <==> m in multiset(rows);
    }
    assert |multiset(Whole(q, rows))| == |multiset(Matching(q, rows))|;
  }

  /** Who is listed: public models, of the kind asked for when that is one of the two there are. */
  lemma ListedIffPublic(q: Query, rows: seq<Model>, m: Model)
    requires DistinctIds(rows)
    ensures m in Whole(q, rows) <==>
      && m in rows && m.visibility == Public
      && ("kind" in q && q["kind"] != [] && q["kind"][0] in {"pixel", "model"} ==> m.kind == q["kind"][0])
  {
    WholeIsSortedMatches(q, rows);
  }

  /** In which order: the latest first, or the highest score first; equal ones by date, and then by id, the latest first. */
  lemma ListedInOrder(q: Query, l: seq<Model>, i: nat, j: nat)
    requires Sorted(OrderOf(q), l) && i < j < |l|
    ensures var top := "sort" in q && q["sort"] != [] && q["sort"][0] == "top";
      && (top ==> l[i].score >= l[j].score)
      && (!top || l[i].score == l[j].score ==> l[i].createdAt >= l[j].createdAt)
      && ((!top || l[i].score == l[j].score) && l[i].createdAt == l[j].createdAt ==> l[i].id > l[j].id)
  {
  }

  /** A number a query asks for: the first value given, if it is one and positive, up to the maximum; else the default. */
  lemma ParametersAre(cfg: Config, rows: seq<Model>, q: Query)
    ensures var r := Browse(cfg, rows, q);
      && (!("page" in q && q["page"] != [] && ParseInt(q["page"][0]).Some? && ParseInt(q["page"][0]).value >= 1) ==> r.page == 1)
      && ("page" in q && q["page"] != [] && ParseInt(q["page"][0]).Some? && ParseInt(q["page"][0]).value >= 1 ==>
            r.page == if ParseInt(q["page"][0]).value > 1_000_000 then 1_000_000 else ParseInt(q["page"][0]).value)
    ensures var r := Browse(cfg, rows, q);
      && (!("per_page" in q && q["per_page"] != [] && ParseInt(q["per_page"][0]).Some? && ParseInt(q["per_page"][0]).value >= 1) ==>
            r.perPage == cfg.pageSize)
      && ("per_page" in q && q["per_page"] != [] && ParseInt(q["per_page"][0]).Some? && ParseInt(q["per_page"][0]).value >= 1 ==>
            r.perPage == if ParseInt(q["per_page"][0]).value > cfg.maxPageSize then cfg.maxPageSize else ParseInt(q["per_page"][0]).value)
    ensures DistinctIds(rows) ==> Browse(cfg, rows, q).total == |Whole(q, rows)|
  {
    if DistinctIds(rows) {
      WholeIsSortedMatches(q, rows);
    }
  }

  /** A page does not depend on how the table happens to be stored. */
  lemma PageIgnoresStorage(cfg: Config, a: seq<Model>, b: seq<Model>, q: Query)
    requires DistinctIds(a) && DistinctIds(b) && multiset(a) == multiset(b)
    ensures Browse(cfg, a, q) == Browse(cfg, b, q)
  {
    WholeIsSortedMatches(q, a);
    WholeIsSortedMatches(q, b);
    forall m
      ensures multiset(Matching(q, a))[m] == multiset(Matching(q, b))[m]
    {
      MatchingKeeps(q, a, m);
      MatchingKeeps(q, b, m);
    }
    assert multiset(Matching(q, a)) == multiset(Matching(q, b));
    OneOrder(OrderOf(q), Whole(q, a), Whole(q, b));
  }

  // ---- pages -----------------------------------------------------------------

  function Power10(k: nat): nat {
    if k == 0 then 1 else 10 * Power10(k - 1)
  }

  lemma {:induction false} DigitsLength(n: nat, k: nat)
    requires n < Power10(k) && k >= 1
    ensures |Digits(n)| <= k
  {
    if n >= 10 {
      assert k >= 2 by {
        assert Power10(1) == 10;
      }
      DigitsLength(n / 10, k - 1);
    }
  }

  /** The same query, for page `p`. */
  function ForPage(q: Query, p: nat): Query {
    q["page" := [Decimal(p)]]
  }

  lemma PageAsked(q: Query, p: nat)
    requires 1 <= p <= MAX_PAGE
    ensures PageOf(ForPage(q, p)) == p
  {
    assert Power10(3) == 1000 && Power10(6) == 1000 * Power10(3) && Power10(7) == 10 * Power10(6);
    DigitsLength(p, 7);
    ParseIntOfDecimal(p);
  }

  lemma OnlyThePageDiffers(cfg: Config, q: Query, values: seq<string>, rows: seq<Model>)
    ensures var r := q["page" := values];
      PerPage(cfg, r) == PerPage(cfg, q) && OrderOf(r) == OrderOf(q) && Matching(r, rows) == Matching(q, rows) && Whole(r, rows) == Whole(q, rows)
  {
    SameMatches(q, q["page" := values], rows);
  }

  lemma {:induction false} SameMatches(q: Query, r: Query, rows: seq<Model>)
    requires Values(q, "kind") == Values(r, "kind")
    ensures Matching(q, rows) == Matching(r, rows)
  {
    if rows != [] {
      SameMatches(q, r, rows[1..]);
    }
  }

  /** Pages 1 to `n`, one after the other. */
  function Pages(cfg: Config, rows: seq<Model>, q: Query, n: nat): seq<Model> {
    if n == 0 then [] else Pages(cfg, rows, q, n - 1) + Browse(cfg, rows, ForPage(q, n)).items
  }

  function Upto(l: seq<Model>, n: nat): seq<Model> {
    if n < |l| then l[..n] else l
  }

  lemma SliceExtends(l: seq<Model>, per: nat, from: nat)
    requires per >= 1
    ensures Upto(l, from) + Slice(l, per, from) == Upto(l, from + per)
  {
  }

  /** Page `n` of a query shows that page of its whole list. */
  lemma PageShows(cfg: Config, rows: seq<Model>, q: Query, n: nat)
    requires 1 <= n <= MAX_PAGE
    ensures Browse(cfg, rows, ForPage(q, n)).items == PageItems(Whole(q, rows), n, PerPage(cfg, q))
  {
    PageAsked(q, n);
    OnlyThePageDiffers(cfg, q, [Decimal(n)], rows);
  }

  function ListPages(l: seq<Model>, per: nat, n: nat): seq<Model> {
    if n == 0 then [] else ListPages(l, per, n - 1) + PageItems(l, n, per)
  }

  lemma {:induction false} ListPagesArePrefix(l: seq<Model>, per: nat, n: nat)
    requires per >= 1
    ensures ListPages(l, per, n) == Upto(l, n * per)
  {
    if n > 0 {
      var from := (n - 1) * per;
      ListPagesArePrefix(l, per, n - 1);
      assert n * per == from + per;
      SliceExtends(l, per, from);
    }
  }

  lemma OnePageMore(cfg: Config, rows: seq<Model>, q: Query, n: nat)
    requires 1 <= n <= MAX_PAGE
    ensures Pages(cfg, rows, q, n) == Pages(cfg, rows, q, n - 1) + Browse(cfg, rows, ForPage(q, n)).items
  {
  }

  lemma {:induction false} PagesAreListPages(cfg: Config, rows: seq<Model>, q: Query, n: nat, l: seq<Model>, per: nat)
    requires n <= MAX_PAGE
    requires forall p: nat :: 1 <= p <= n ==> Browse(cfg, rows, ForPage(q, p)).items == PageItems(l, p, per)
    ensures Pages(cfg, rows, q, n) == ListPages(l, per, n)
    decreases n
  {
    if n > 0 {
      PagesAreListPages(cfg, rows, q, n - 1, l, per);
      OnePageMore(cfg, rows, q, n);
    }
  }

  lemma PagesArePrefix(cfg: Config, rows: seq<Model>, q: Query, n: nat)
    requires PerPage(cfg, q) >= 1 && n <= MAX_PAGE
    ensures Pages(cfg, rows, q, n) == Upto(Whole(q, rows), n * PerPage(cfg, q))
  {
    forall p: nat | 1 <= p <= n
      ensures Browse(cfg, rows, ForPage(q, p)).items == PageItems(Whole(q, rows), p, PerPage(cfg, q))
    {
      PageShows(cfg, rows, q, p);
    }
    PagesAreListPages(cfg, rows, q, n, Whole(q, rows), PerPage(cfg, q));
    ListPagesArePrefix(Whole(q, rows), PerPage(cfg, q), n);
  }

  /** Pages needed for `total` rows. */
  function PageCount(total: nat, per: nat): nat
    requires per >= 1
  {
    (total + per - 1) / per
  }

  lemma EnoughPages(total: nat, per: nat)
    requires per >= 1
    ensures PageCount(total, per) * per >= total
    ensures total <= MAX_PAGE * per ==> PageCount(total, per) <= MAX_PAGE
  {
    var n := PageCount(total, per);
    assert total + per - 1 == n * per + (total + per - 1) % per;
    ProductGrows(MAX_PAGE + 1, n, per);
  }

  /**
   Pages 1 to the last, put together: every public model of the kind asked for, once each, in the order
   asked for, and nothing else.
   */
  lemma PagesPartition(cfg: Config, rows: seq<Model>, q: Query)
    requires DistinctIds(rows) && PerPage(cfg, q) >= 1
    requires |Matching(q, rows)| <= MAX_PAGE * PerPage(cfg, q)
    ensures var total := Browse(cfg, rows, q).total; var all := Pages(cfg, rows, q, PageCount(total, PerPage(cfg, q)));
      && |all| == total
      && (forall i, j :: 0 <= i < j < |all| ==> all[i].id != all[j].id)
      && (forall m :: m in all <==>
            && m in rows && m.visibility == Public
            && ("kind" in q && q["kind"] != [] && q["kind"][0] in {"pixel", "model"} ==> m.kind == q["kind"][0]))
    ensures var all := Pages(cfg, rows, q, PageCount(Browse(cfg, rows, q).total, PerPage(cfg, q)));
      Sorted(OrderOf(q), all) && multiset(all) == multiset(Matching(q, rows))
    ensures var all := Pages(cfg, rows, q, PageCount(Browse(cfg, rows, q).total, PerPage(cfg, q)));
      var top := "sort" in q && q["sort"] != [] && q["sort"][0] == "top";
      forall i, j :: 0 <= i < j < |all| ==>
        && (top ==> all[i].score >= all[j].score)
        && (!top || all[i].score == all[j].score ==> all[i].createdAt >= all[j].createdAt)
  {
    var total, per := |Matching(q, rows)|, PerPage(cfg, q);
    EnoughPages(total, per);
    WholeIsSortedMatches(q, rows);
    PagesArePrefix(cfg, rows, q, PageCount(total, per));
    var all := Whole(q, rows);
    forall m
      ensures m in all <==>
        && m in rows && m.visibility == Public
        && ("kind" in q && q["kind"] != [] && q["kind"][0] in {"pixel", "model"} ==> m.kind == q["kind"][0])
    {
      ListedIffPublic(q, rows, m);
    }
    forall i, j | 0 <= i < j < |all|
      ensures all[i].id != all[j].id
      ensures "sort" in q && q["sort"] != [] && q["sort"][0] == "top" ==> all[i].score >= all[j].score
      ensures !("sort" in q && q["sort"] != [] && q["sort"][0] == "top") || all[i].score == all[j].score ==> all[i].createdAt >= all[j].createdAt
    {
      ListedInOrder(q, all, i, j);
      SortedDistinct(q, rows, i, j);
    }
  }

  lemma SortedDistinct(q: Query, rows: seq<Model>, i: nat, j: nat)
    requires DistinctIds(rows) && i < j < |Whole(q, rows)|
    ensures Whole(q, rows)[i].id != Whole(q, rows)[j].id
  {
    var all := Whole(q, rows);
    WholeIsSortedMatches(q, rows);
    StrictAndTotal(OrderOf(q), all[i], all[j], all[j]);
    assert all[i] in all && all[j] in all;
    assert all[i] in rows && all[j] in rows;
  }

  /** With this `page` parameter the query shows `m`. */
  predicate Shows(cfg: Config, rows: seq<Model>, q: Query, values: seq<string>, m: Model) {
    m in Browse(cfg, rows, q["page" := values]).items
  }

  ghost predicate OnSomePage(cfg: Config, rows: seq<Model>, q: Query, m: Model) {
    exists values :: Shows(cfg, rows, q, values, m)
  }

  lemma NotOnEarlierPage(o: Order, l: seq<Model>, page: int, per: nat, k: nat)
    requires Sorted(o, l) && per >= 1 && 1 <= page <= MAX_PAGE && MAX_PAGE * per <= k < |l|
    ensures l[k] !in PageItems(l, page, per)
  {
    var from, items := (page - 1) * per, PageItems(l, page, per);
    ProductGrows(page, MAX_PAGE, per);
    ProductGrows(0, page - 1, per);
    assert 0 <= from && from + per <= k;
    forall i | 0 <= i < |items|
      ensures items[i] != l[k]
    {
      StrictAndTotal(o, l[k], l[k], l[k]);
      assert items[i] == l[from + i];
    }
  }

  lemma PageInRange(q: Query)
    ensures 1 <= PageOf(q) <= MAX_PAGE
  {
  }

  /** No page number, however written, shows a row past the last page. */
  lemma NothingPastTheLastPage(cfg: Config, rows: seq<Model>, q: Query, values: seq<string>, k: nat)
    requires Sorted(OrderOf(q), Whole(q, rows)) && PerPage(cfg, q) >= 1
    requires MAX_PAGE * PerPage(cfg, q) <= k < |Whole(q, rows)|
    ensures !Shows(cfg, rows, q, values, Whole(q, rows)[k])
  {
    var r := q["page" := values];
    OnlyThePageDiffers(cfg, q, values, rows);
    PageInRange(r);
    NotOnEarlierPage(OrderOf(q), Whole(q, rows), PageOf(r), PerPage(cfg, q), k);
  }

  /** Browsing reaches every matching row exactly when they fit on the pages that can be asked for. */
  lemma AllReachableIffTheyFit(cfg: Config, rows: seq<Model>, q: Query)
    requires DistinctIds(rows) && PerPage(cfg, q) >= 1
    ensures (forall m :: m in rows && Matches(q, m) ==> OnSomePage(cfg, rows, q, m)) <==> |Matching(q, rows)| <= MAX_PAGE * PerPage(cfg, q)
  {
    var per, l := PerPage(cfg, q), Whole(q, rows);
    WholeIsSortedMatches(q, rows);
    if |l| > MAX_PAGE * per {
      var k := MAX_PAGE * per;
      assert l[k] in l;
      forall values
        ensures !Shows(cfg, rows, q, values, l[k])
      {
        NothingPastTheLastPage(cfg, rows, q, values, k);
      }
      assert !OnSomePage(cfg, rows, q, l[k]);
    } else {
      PagesPartition(cfg, rows, q);
      forall m | m in rows && Matches(q, m)
        ensures OnSomePage(cfg, rows, q, m)
      {
        FoundOnAPage(cfg, rows, q, PageCount(|l|, per), m);
      }
    }
  }

  lemma {:induction false} FoundOnAPage(cfg: Config, rows: seq<Model>, q: Query, n: nat, m: Model)
    requires m in Pages(cfg, rows, q, n)
    ensures OnSomePage(cfg, rows, q, m)
  {
    if m in Browse(cfg, rows, ForPage(q, n)).items {
      assert Shows(cfg, rows, q, [Decimal(n)], m);
    } else {
      FoundOnAPage(cfg, rows, q, n - 1, m);
    }
  }
}
